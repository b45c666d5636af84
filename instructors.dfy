/** The instructor's side of grading: entering component scores, turning
    them into final letters for a whole section, and the read-only
    gradebook and statistics views. */
module Instructors {
  import opened Wrappers
  import opened Seqs
  import opened Domain
  import opened Text
  import opened Grades
  import Settings
  import Sections
  import Enrollments
  import Catalog
  import Access

  /** The failures the service reports, one per exception it throws. */
  datatype GradeError =
    | GradingMaintenance
    | EnrollmentMissing
    | NotAuthorized
    | ScoreOutOfRange
    | SaveFailed
    | BoundaryCount
    | BoundariesNotDescending
    | BoundaryOutOfRange
    | FinalGradesFailed(failCount: nat)

  const MAX_SCORE: real := 100.0
  const INCOMPLETE: string := "I"
  const FAILING: string := "F"

  /** The letters earned by meeting the five boundaries, best first. */
  const LETTERS: seq<string> := ["A+", "A", "B", "C", "D"]

  // ---------------------------------------------------------------------
  // Letters and boundaries

  /** `calculateLetterGrade(score, boundaries)`: the letter of the first
      boundary the score meets, or "F" when it meets none. */
  function CalculateLetterGrade(score: real, boundaries: seq<real>): (r: string)
    requires |boundaries| == 5
    ensures r in LETTERS || r == FAILING
    ensures forall i :: 0 <= i < 5 && score >= boundaries[i] && (forall j :: 0 <= j < i ==> score < boundaries[j])
                        ==> r == LETTERS[i]
    ensures (forall j :: 0 <= j < 5 ==> score < boundaries[j]) <==> r == FAILING
  {
    if score >= boundaries[0] then "A+"
    else if score >= boundaries[1] then "A"
    else if score >= boundaries[2] then "B"
    else if score >= boundaries[3] then "C"
    else if score >= boundaries[4] then "D"
    else "F"
  }

  /** The position of a letter on the scale, 0 for "A+" and 5 for "F". */
  function LetterRank(letter: string): nat {
    if letter == "A+" then 0
    else if letter == "A" then 1
    else if letter == "B" then 2
    else if letter == "C" then 3
    else if letter == "D" then 4
    else 5
  }

  /** A higher score never earns a worse letter. */
  lemma LetterMonotone(low: real, high: real, boundaries: seq<real>)
    requires |boundaries| == 5 && low <= high
    ensures LetterRank(CalculateLetterGrade(high, boundaries)) <= LetterRank(CalculateLetterGrade(low, boundaries))
  {
    var b := boundaries;
    if low >= b[0] {
      assert CalculateLetterGrade(high, b) == "A+";
    } else if low >= b[1] {
      assert LetterRank(CalculateLetterGrade(low, b)) == 1;
    } else if low >= b[2] {
      assert LetterRank(CalculateLetterGrade(low, b)) == 2;
    } else if low >= b[3] {
      assert LetterRank(CalculateLetterGrade(low, b)) == 3;
    } else if low >= b[4] {
      assert LetterRank(CalculateLetterGrade(low, b)) == 4;
    }
  }

  /** Strictly descending, each boundary below the next better one. */
  predicate Descending(boundaries: seq<real>) {
    forall i :: 0 <= i < |boundaries| - 1 ==> boundaries[i] > boundaries[i + 1]
  }

  predicate WithinScale(boundaries: seq<real>) {
    forall i :: 0 <= i < |boundaries| ==> 0.0 <= boundaries[i] <= MAX_SCORE
  }

  /** The boundary checks of `computeFinalGrades`, in their order: five
      values, strictly descending, each in [0, 100]. A missing list is
      refused like a list of the wrong size. */
  function BoundaryCheck(boundaries: Option<seq<real>>): (r: Outcome<GradeError>)
    ensures r.Pass? <==> boundaries.Some? && |boundaries.value| == 5
                         && Descending(boundaries.value) && WithinScale(boundaries.value)
  {
    if boundaries.None? || |boundaries.value| != 5 then Fail(BoundaryCount)
    else if !Descending(boundaries.value) then Fail(BoundariesNotDescending)
    else if !WithinScale(boundaries.value) then Fail(BoundaryOutOfRange)
    else Pass
  }

  /** The validation loops of `computeFinalGrades`: adjacent pairs first,
      then the range of each value. */
  method ValidateBoundaries(boundaries: Option<seq<real>>) returns (r: Outcome<GradeError>)
    ensures r == BoundaryCheck(boundaries)
  {
    if boundaries.None? || |boundaries.value| != 5 {
      return Fail(BoundaryCount);
    }
    var b := boundaries.value;
    var i := 0;
    while i < |b| - 1
      invariant 0 <= i <= |b| - 1
      invariant forall j :: 0 <= j < i ==> b[j] > b[j + 1]
    {
      if b[i] <= b[i + 1] {
        return Fail(BoundariesNotDescending);
      }
      i := i + 1;
    }
    i := 0;
    while i < |b|
      invariant 0 <= i <= |b|
      invariant forall j :: 0 <= j < i ==> 0.0 <= b[j] <= MAX_SCORE
    {
      if b[i] < 0.0 || b[i] > MAX_SCORE {
        return Fail(BoundaryOutOfRange);
      }
      i := i + 1;
    }
    return Pass;
  }

  /** Under accepted boundaries every letter is reachable: a score exactly
      on a boundary earns that boundary's letter, and a full score earns
      the top letter. */
  lemma BoundaryEarnsItsLetter(boundaries: seq<real>, i: int)
    requires BoundaryCheck(Some(boundaries)).Pass?
    requires 0 <= i < 5
    ensures CalculateLetterGrade(boundaries[i], boundaries) == LETTERS[i]
    ensures CalculateLetterGrade(MAX_SCORE, boundaries) == "A+"
  {
    var b := boundaries;
    assert b[0] > b[1] && b[1] > b[2] && b[2] > b[3] && b[3] > b[4];
    assert 0.0 <= b[0] <= MAX_SCORE;
  }

  // ---------------------------------------------------------------------
  // Scores of one enrollment

  function ScoredFor(component: string): Grade -> bool {
    (g: Grade) => g.component == component && g.score.Some?
  }

  /** The component-to-score map the gradebook and the final grading both
      build from an enrollment's rows: rows without a score are skipped and,
      when a component has several scored rows, the first one wins (an
      earlier row overrides what the later ones contributed). */
  function ComponentScores(grades: seq<Grade>): map<string, real> {
    if grades == [] then map[]
    else
      var rest := ComponentScores(grades[1..]);
      var g := grades[0];
      if g.score.Some? then rest[g.component := g.score.value] else rest
  }

  /** A component has a score exactly when some row scores it, and the
      score is that of the first such row. */
  lemma {:induction false} FirstScoreWins(grades: seq<Grade>, component: string)
    ensures component in ComponentScores(grades) <==> FindFirst(grades, ScoredFor(component)).Some?
    ensures component in ComponentScores(grades)
            ==> FindFirst(grades, ScoredFor(component)).value.score == Some(ComponentScores(grades)[component])
  {
    if grades != [] {
      FirstScoreWins(grades[1..], component);
    }
  }

  /** A component the enrollment has no scored row for is absent from the
      map. */
  lemma UnscoredComponentAbsent(grades: seq<Grade>, component: string)
    requires forall g :: g in grades && g.component == component ==> g.score.None?
    ensures component !in ComponentScores(grades)
  {
    FirstScoreWins(grades, component);
  }

  predicate HasAllComponents(scores: map<string, real>) {
    QUIZ in scores && MIDTERM in scores && ENDSEM in scores
  }

  /** What `computeFinalGrades` decides for one enrollment from its rows. */
  datatype Verdict = Incomplete | Graded(letter: string) | SumTooHigh(sum: real)

  /** A missing component gives "I"; a sum over 100 is an error that
      writes nothing; a negative sum is graded as 0. */
  function FinalVerdict(grades: seq<Grade>, boundaries: seq<real>): (v: Verdict)
    requires |boundaries| == 5
    ensures v.Graded? ==> v.letter in LETTERS || v.letter == FAILING
  {
    var scores := ComponentScores(grades);
    if !HasAllComponents(scores) then Incomplete
    else
      var sum := scores[QUIZ] + scores[MIDTERM] + scores[ENDSEM];
      if sum > MAX_SCORE then SumTooHigh(sum)
      else Graded(CalculateLetterGrade(if sum < 0.0 then 0.0 else sum, boundaries))
  }

  /** The letter a verdict writes onto the enrollment's rows, if any. */
  function VerdictLetter(v: Verdict): (r: Option<string>)
    ensures r.None? <==> v.SumTooHigh?
  {
    match v
    case Incomplete => Some(INCOMPLETE)
    case Graded(letter) => Some(letter)
    case SumTooHigh(_) => None
  }

  /** The letters the grading writes are never blank, so the store keeps
      them as they are. */
  lemma VerdictLetterStored(v: Verdict)
    requires v.Graded? ==> v.letter in LETTERS || v.letter == FAILING
    ensures StoredLetter(VerdictLetter(v)) == VerdictLetter(v)
  {
    match v
    case Incomplete =>
      assert !IsJavaWhitespace(INCOMPLETE[0]);
    case Graded(letter) =>
      assert !IsJavaWhitespace(letter[0]);
    case SumTooHigh(_) =>
  }

  /** An enrollment missing any of the three components is incomplete,
      whatever else it has. */
  lemma MissingComponentIsIncomplete(grades: seq<Grade>, boundaries: seq<real>, component: string)
    requires |boundaries| == 5
    requires component == QUIZ || component == MIDTERM || component == ENDSEM
    requires forall g :: g in grades && g.component == component ==> g.score.None?
    ensures FinalVerdict(grades, boundaries) == Incomplete
  {
    UnscoredComponentAbsent(grades, component);
  }

  // ---------------------------------------------------------------------
  // The gradebook

  /** One line of the gradebook: the student, the three component scores
      (absent when not entered) and the final letter. */
  datatype GradebookRow = GradebookRow(enrollmentId: int, studentId: int, rollNo: string,
                                       quiz: Option<real>, midterm: Option<real>, endSem: Option<real>,
                                       finalGrade: Option<string>)

  function Lookup(scores: map<string, real>, component: string): (r: Option<real>)
    ensures r.Some? <==> component in scores
  {
    if component in scores then Some(scores[component]) else None
  }

  /** The student's roll number, or "Unknown" without a profile. */
  function RollNo(students: map<int, Catalog.StudentRecord>, studentId: int): string {
    match Catalog.FindStudentProfile(students, studentId)
    case Some(p) => p.rollNo
    case None => "Unknown"
  }

  /** The gradebook line of one enrollment. */
  function GradebookRowFor(e: Enrollment, grades: seq<Grade>, students: map<int, Catalog.StudentRecord>): (row: GradebookRow)
    ensures row.enrollmentId == e.enrollmentId && row.studentId == e.studentId
    ensures row.finalGrade == FirstFinalGrade(ByEnrollment(grades, e.enrollmentId))
  {
    var gs := ByEnrollment(grades, e.enrollmentId);
    var scores := ComponentScores(gs);
    GradebookRow(e.enrollmentId, e.studentId, RollNo(students, e.studentId),
                 Lookup(scores, QUIZ), Lookup(scores, MIDTERM), Lookup(scores, ENDSEM), FirstFinalGrade(gs))
  }

  /** The gradebook shows the very scores the final grading uses: an
      enrollment is incomplete exactly when a score column is empty, and
      otherwise its letter follows from the three shown scores. */
  lemma GradebookMatchesGrading(e: Enrollment, grades: seq<Grade>, students: map<int, Catalog.StudentRecord>,
                                boundaries: seq<real>)
    requires |boundaries| == 5
    ensures var row := GradebookRowFor(e, grades, students);
            var v := FinalVerdict(ByEnrollment(grades, e.enrollmentId), boundaries);
            && (v == Incomplete <==> row.quiz.None? || row.midterm.None? || row.endSem.None?)
            && (v != Incomplete ==>
                  var sum := row.quiz.value + row.midterm.value + row.endSem.value;
                  v == if sum > MAX_SCORE then SumTooHigh(sum)
                       else Graded(CalculateLetterGrade(if sum < 0.0 then 0.0 else sum, boundaries)))
  {
    var gs := ByEnrollment(grades, e.enrollmentId);
    var scores := ComponentScores(gs);
    var row := GradebookRowFor(e, grades, students);
    assert row.quiz == Lookup(scores, QUIZ) && row.midterm == Lookup(scores, MIDTERM) && row.endSem == Lookup(scores, ENDSEM);
    if HasAllComponents(scores) {
      assert row.quiz == Some(scores[QUIZ]) && row.midterm == Some(scores[MIDTERM]) && row.endSem == Some(scores[ENDSEM]);
      var sum := scores[QUIZ] + scores[MIDTERM] + scores[ENDSEM];
      assert sum == row.quiz.value + row.midterm.value + row.endSem.value;
      assert FinalVerdict(gs, boundaries)
             == if sum > MAX_SCORE then SumTooHigh(sum)
                else Graded(CalculateLetterGrade(if sum < 0.0 then 0.0 else sum, boundaries));
    } else {
      assert FinalVerdict(gs, boundaries) == Incomplete;
    }
  }

  // ---------------------------------------------------------------------
  // Statistics

  /** Every stored score is on the 0-100 scale. */
  ghost predicate OnScale(grades: seq<Grade>) {
    forall g :: g in grades && g.score.Some? ==> 0.0 <= g.score.value <= MAX_SCORE
  }

  function Sum(xs: seq<real>): real {
    if xs == [] then 0.0 else Sum(xs[..|xs| - 1]) + xs[|xs| - 1]
  }

  /** A sum of values between `lo` and `hi` lies between `n * lo` and
      `n * hi`. */
  lemma {:induction false} SumBounds(xs: seq<real>, lo: real, hi: real)
    requires forall x :: x in xs ==> lo <= x <= hi
    ensures (|xs| as real) * lo <= Sum(xs) <= (|xs| as real) * hi
  {
    if xs != [] {
      var init := xs[..|xs| - 1];
      forall x | x in init ensures lo <= x <= hi {
        assert x in xs;
      }
      SumBounds(init, lo, hi);
      assert xs[|xs| - 1] in xs;
      var n := |init| as real;
      assert (n + 1.0) * lo == n * lo + lo && (n + 1.0) * hi == n * hi + hi;
    }
  }

  function Average(xs: seq<real>): real
    requires xs != []
  {
    Sum(xs) / (|xs| as real)
  }

  /** The average of values in a range stays in that range. */
  lemma AverageBounds(xs: seq<real>, lo: real, hi: real)
    requires xs != []
    requires forall x :: x in xs ==> lo <= x <= hi
    ensures lo <= Average(xs) <= hi
  {
    SumBounds(xs, lo, hi);
    var n := |xs| as real;
    var a := Average(xs);
    assert a * n == Sum(xs);
  }

  /** The lists of `getSectionStatistics` after adding the rows `grades`:
      each scored row appends its score to its component's list. */
  function AddScores(byComponent: map<string, seq<real>>, grades: seq<Grade>): (r: map<string, seq<real>>)
    ensures forall k :: k in r <==> k in byComponent || exists g :: g in grades && g.component == k && g.score.Some?
    ensures (forall k :: k in byComponent ==> byComponent[k] != []) ==> forall k :: k in r ==> r[k] != []
  {
    if grades == [] then byComponent
    else
      var init := grades[..|grades| - 1];
      var g := grades[|grades| - 1];
      assert grades == init + [g];
      var m := AddScores(byComponent, init);
      if g.score.Some? then
        m[g.component := (if g.component in m then m[g.component] else []) + [g.score.value]]
      else m
  }

  /** Adding scores on the 0-100 scale to lists on that scale keeps every
      list on it. */
  lemma {:induction false} AddScoresOnScale(byComponent: map<string, seq<real>>, grades: seq<Grade>)
    requires forall k :: k in byComponent ==> forall x :: x in byComponent[k] ==> 0.0 <= x <= MAX_SCORE
    requires OnScale(grades)
    ensures forall k :: k in AddScores(byComponent, grades) ==> forall x :: x in AddScores(byComponent, grades)[k] ==> 0.0 <= x <= MAX_SCORE
  {
    if grades != [] {
      var init := grades[..|grades| - 1];
      var g := grades[|grades| - 1];
      assert grades == init + [g];
      assert OnScale(init) by {
        forall h | h in init && h.score.Some? ensures 0.0 <= h.score.value <= MAX_SCORE {
          assert h in grades;
        }
      }
      AddScoresOnScale(byComponent, init);
      var m := AddScores(byComponent, init);
      if g.score.Some? {
        assert g in grades;
        var list := if g.component in m then m[g.component] else [];
        assert forall x :: x in list + [g.score.value] ==> 0.0 <= x <= MAX_SCORE;
      }
    }
  }

  /** Adding one more row extends the lists by that row's score. */
  lemma AddScoresStep(byComponent: map<string, seq<real>>, grades: seq<Grade>, j: int)
    requires 0 <= j < |grades|
    ensures var m := AddScores(byComponent, grades[..j]);
            var g := grades[j];
            AddScores(byComponent, grades[..j + 1])
            == if g.score.Some? then m[g.component := (if g.component in m then m[g.component] else []) + [g.score.value]]
               else m
  {
    assert grades[..j + 1][..j] == grades[..j];
  }

  /** The inner loop of `getSectionStatistics`: appends each scored row's
      score to its component's list, creating the list on first use. */
  method GatherScores(start: map<string, seq<real>>, grades: seq<Grade>) returns (byComponent: map<string, seq<real>>)
    ensures byComponent == AddScores(start, grades)
  {
    byComponent := start;
    var j := 0;
    while j < |grades|
      invariant 0 <= j <= |grades|
      invariant byComponent == AddScores(start, grades[..j])
    {
      AddScoresStep(start, grades, j);
      var g := grades[j];
      if g.score.Some? {
        var list := if g.component in byComponent then byComponent[g.component] else [];
        byComponent := byComponent[g.component := list + [g.score.value]];
      }
      j := j + 1;
    }
    assert grades[..j] == grades;
  }

  /** The lists after every enrollment of the roster has been added, in
      roster order. */
  function SectionScores(roster: seq<Enrollment>, grades: seq<Grade>): (r: map<string, seq<real>>)
    ensures forall k :: k in r ==> r[k] != []
    ensures OnScale(grades) ==> forall k :: k in r ==> forall x :: x in r[k] ==> 0.0 <= x <= MAX_SCORE
  {
    if roster == [] then map[]
    else
      var init := roster[..|roster| - 1];
      var e := roster[|roster| - 1];
      var before := SectionScores(init, grades);
      var mine := ByEnrollment(grades, e.enrollmentId);
      var r := AddScores(before, mine);
      assert OnScale(grades) ==> forall k :: k in r ==> forall x :: x in r[k] ==> 0.0 <= x <= MAX_SCORE by {
        if OnScale(grades) {
          assert OnScale(mine);
          AddScoresOnScale(before, mine);
        }
      }
      r
  }

  /** Some enrollment of the roster has a row scoring the component. */
  ghost predicate ScoredInRoster(roster: seq<Enrollment>, grades: seq<Grade>, component: string) {
    exists e, g :: e in roster && g in ByEnrollment(grades, e.enrollmentId) && g.component == component && g.score.Some?
  }

  /** The gathered lists name exactly the components some enrollment of the
      roster has a score for. */
  lemma {:induction false} ScoredComponentsListed(roster: seq<Enrollment>, grades: seq<Grade>, component: string)
    ensures component in SectionScores(roster, grades) <==> ScoredInRoster(roster, grades, component)
  {
    if roster != [] {
      var init := roster[..|roster| - 1];
      var last := roster[|roster| - 1];
      assert roster == init + [last];
      ScoredComponentsListed(init, grades, component);
      if ScoredInRoster(roster, grades, component) {
        var e, g :| e in roster && g in ByEnrollment(grades, e.enrollmentId) && g.component == component && g.score.Some?;
        if e in init {
          assert ScoredInRoster(init, grades, component);
        }
      }
      if ScoredInRoster(init, grades, component) {
        var e, g :| e in init && g in ByEnrollment(grades, e.enrollmentId) && g.component == component && g.score.Some?;
        assert e in roster;
      }
    }
  }

  /** One average per component that has at least one score. */
  function Averages(byComponent: map<string, seq<real>>): map<string, real> {
    map k | k in byComponent && byComponent[k] != [] :: Average(byComponent[k])
  }

  /** The last loop of `getSectionStatistics`: visits each component once,
      in no particular order, and records the average of a non-empty
      list. */
  method AverageEach(byComponent: map<string, seq<real>>) returns (averages: map<string, real>)
    ensures averages == Averages(byComponent)
  {
    averages := map[];
    var pending := byComponent.Keys;
    while pending != {}
      invariant pending <= byComponent.Keys
      invariant forall k :: k in averages <==> k in byComponent && k !in pending && byComponent[k] != []
      invariant forall k :: k in averages ==> byComponent[k] != [] && averages[k] == Average(byComponent[k])
      decreases |pending|
    {
      var k :| k in pending;
      var scores := byComponent[k];
      if scores != [] {
        var sum := Sum(scores);
        averages := averages[k := sum / (|scores| as real)];
      }
      pending := pending - {k};
    }
  }

  /** With every stored score on the scale, so is every average, and a
      component has an average exactly when some enrollment of the roster
      has a score for it. */
  lemma StatisticsOnScale(roster: seq<Enrollment>, grades: seq<Grade>)
    requires OnScale(grades)
    ensures var averages := Averages(SectionScores(roster, grades));
            && (forall k :: k in averages ==> 0.0 <= averages[k] <= MAX_SCORE)
            && (forall k :: k in averages <==> ScoredInRoster(roster, grades, k))
  {
    var byComponent := SectionScores(roster, grades);
    forall k ensures k in byComponent <==> ScoredInRoster(roster, grades, k) {
      ScoredComponentsListed(roster, grades, k);
    }
    forall k | k in byComponent ensures 0.0 <= Average(byComponent[k]) <= MAX_SCORE {
      AverageBounds(byComponent[k], 0.0, MAX_SCORE);
    }
  }

  // ---------------------------------------------------------------------
  // Score entry

  /** The checks `enterScore` makes before it writes, in their order:
      maintenance, the enrollment, the instructor's right to grade its
      section, and the score's range (an empty score is allowed). */
  function ScoreEntryCheck(settings: Settings.Table, enrollments: seq<Enrollment>, sections: seq<Section>,
                           instructor: User, enrollmentId: int, score: Option<real>): Outcome<GradeError>
  {
    if Access.IsMaintenanceModeOn(settings) then Fail(GradingMaintenance)
    else match Enrollments.FindById(enrollments, enrollmentId)
      case None => Fail(EnrollmentMissing)
      case Some(e) =>
        if !Access.CanInstructorGradeSection(Some(instructor), sections, e.sectionId) then Fail(NotAuthorized)
        else if score.Some? && (score.value < 0.0 || score.value > MAX_SCORE) then Fail(ScoreOutOfRange)
        else Pass
  }

  /** Only scores on the scale get through, so accepted entries keep every
      stored score on the scale. */
  lemma EntryKeepsScale(settings: Settings.Table, enrollments: seq<Enrollment>, sections: seq<Section>,
                        instructor: User, rows: seq<Grade>, nextId: int, enrollmentId: int, component: string,
                        score: Option<real>)
    requires OnScale(rows)
    requires ScoreEntryCheck(settings, enrollments, sections, instructor, enrollmentId, score).Pass?
    ensures OnScale(SavedRows(rows, nextId, enrollmentId, component, score))
  {
    var saved := SavedRows(rows, nextId, enrollmentId, component, score);
    match FindByEnrollmentAndComponent(rows, enrollmentId, component)
    case Some(found) =>
      forall g | g in saved && g.score.Some? ensures 0.0 <= g.score.value <= MAX_SCORE {
        var k :| 0 <= k < |saved| && saved[k] == g;
        assert rows[k] in rows;
      }
    case None =>
  }

  /** Two rows of a table without duplicate keys that share a key are the
      same row. */
  lemma SameKeySameGrade(rows: seq<Grade>, a: Grade, b: Grade)
    requires NoDuplicateKeys(rows) && a in rows && b in rows
    requires a.enrollmentId == b.enrollmentId && a.component == b.component
    ensures a == b
  {
    var i :| 0 <= i < |rows| && rows[i] == a;
    var j :| 0 <= j < |rows| && rows[j] == b;
  }

  /** A saved score is the one the gradebook and the final grading read
      back for that component. */
  lemma ScoreVisibleAfterSave(rows: seq<Grade>, nextId: int, enrollmentId: int, component: string, score: real)
    requires TableValid(rows, nextId) && NoDuplicateKeys(rows)
    ensures var saved := SavedRows(rows, nextId, enrollmentId, component, Some(score));
            var scores := ComponentScores(ByEnrollment(saved, enrollmentId));
            component in scores && scores[component] == score
  {
    var saved := SavedRows(rows, nextId, enrollmentId, component, Some(score));
    SaveKeepsInvariants(rows, nextId, enrollmentId, component, Some(score));
    SaveThenFind(rows, nextId, enrollmentId, component, Some(score));
    var after := FindByEnrollmentAndComponent(saved, enrollmentId, component).value;
    var mine := ByEnrollment(saved, enrollmentId);
    assert after in mine && ScoredFor(component)(after);
    FirstScoreWins(mine, component);
    var first := FindFirst(mine, ScoredFor(component)).value;
    SameKeySameGrade(saved, first, after);
  }

  // ---------------------------------------------------------------------
  // Final grading

  /** The checks `computeFinalGrades` makes before it reads the roster. */
  function FinalGradeCheck(settings: Settings.Table, sections: seq<Section>, instructor: User, sectionId: int,
                           boundaries: Option<seq<real>>): Outcome<GradeError>
  {
    if Access.IsMaintenanceModeOn(settings) then Fail(GradingMaintenance)
    else if !Access.CanInstructorGradeSection(Some(instructor), sections, sectionId) then Fail(NotAuthorized)
    else BoundaryCheck(boundaries)
  }

  /** Boundaries are checked only once the instructor is let in, and
      refused before any grade is read. */
  lemma BoundariesCheckedAfterAccess(settings: Settings.Table, sections: seq<Section>, instructor: User,
                                     sectionId: int, boundaries: Option<seq<real>>)
    requires !Access.IsMaintenanceModeOn(settings)
    requires Access.CanInstructorGradeSection(Some(instructor), sections, sectionId)
    ensures FinalGradeCheck(settings, sections, instructor, sectionId, boundaries) == BoundaryCheck(boundaries)
  {
  }

  function EnrollmentIds(roster: seq<Enrollment>): set<int> {
    set e | e in roster :: e.enrollmentId
  }

  /** Only final grades differ between the two tables, row by row. */
  ghost predicate OnlyFinalGradesChanged(before: seq<Grade>, after: seq<Grade>) {
    && |after| == |before|
    && forall k :: 0 <= k < |before| ==> after[k] == before[k].(finalGrade := after[k].finalGrade)
  }

  /** Every row of the enrollment carries the letter its verdict writes. */
  ghost predicate Finalized(before: seq<Grade>, after: seq<Grade>, enrollmentId: int, boundaries: seq<real>)
    requires |boundaries| == 5
  {
    var letter := VerdictLetter(FinalVerdict(ByEnrollment(before, enrollmentId), boundaries));
    && letter.Some?
    && forall k :: 0 <= k < |after| && after[k].enrollmentId == enrollmentId ==> after[k].finalGrade == letter
  }

  /** No row of the enrollment differs between the two tables. */
  ghost predicate Untouched(before: seq<Grade>, after: seq<Grade>, enrollmentId: int)
    requires |after| == |before|
  {
    forall k :: 0 <= k < |before| && before[k].enrollmentId == enrollmentId ==> after[k] == before[k]
  }

  predicate SumTooHighFor(before: seq<Grade>, e: Enrollment, boundaries: seq<real>)
    requires |boundaries| == 5
  {
    FinalVerdict(ByEnrollment(before, e.enrollmentId), boundaries).SumTooHigh?
  }

  /** Rows of enrollments outside `done` are as they were. */
  ghost predicate OthersUnchanged(before: seq<Grade>, now: seq<Grade>, done: seq<Enrollment>) {
    && |now| == |before|
    && forall k :: 0 <= k < |before| && before[k].enrollmentId !in EnrollmentIds(done) ==> now[k] == before[k]
  }

  ghost predicate AllFinalized(before: seq<Grade>, now: seq<Grade>, done: seq<Enrollment>, boundaries: seq<real>)
    requires |boundaries| == 5
  {
    forall j :: 0 <= j < |done| ==> Finalized(before, now, done[j].enrollmentId, boundaries)
  }

  ghost predicate SomeSumTooHigh(before: seq<Grade>, done: seq<Enrollment>, boundaries: seq<real>)
    requires |boundaries| == 5
  {
    exists j :: 0 <= j < |done| && SumTooHighFor(before, done[j], boundaries)
  }

  /** Some enrollment of `done` explains a failure: its sum was over 100,
      or its rows are as they were because the write was refused. */
  ghost predicate SomeFailureTraced(before: seq<Grade>, now: seq<Grade>, done: seq<Enrollment>, boundaries: seq<real>)
    requires |boundaries| == 5 && |now| == |before|
  {
    exists j :: 0 <= j < |done| && (SumTooHighFor(before, done[j], boundaries) || Untouched(before, now, done[j].enrollmentId))
  }

  /** The state of the grading loop after the enrollments `done`, with
      `failCount` failures so far: only final grades changed, and only
      those of `done`; with no failure each of them carries its letter; a
      sum over 100 among them has been counted; and a counted failure
      left a trace. */
  ghost predicate GradingProgress(before: seq<Grade>, now: seq<Grade>, done: seq<Enrollment>, boundaries: seq<real>,
                                  failCount: nat)
    requires |boundaries| == 5
  {
    && OnlyFinalGradesChanged(before, now)
    && failCount <= |done|
    && OthersUnchanged(before, now, done)
    && (failCount == 0 ==> AllFinalized(before, now, done, boundaries))
    && (SomeSumTooHigh(before, done, boundaries) ==> failCount > 0)
    && (failCount > 0 ==> SomeFailureTraced(before, now, done, boundaries))
  }

  /** What a grading run that passed its checks guarantees: only final
      grades changed, and only those of the roster; a success means every
      enrollment of the roster carries its letter ("I" when a component is
      missing); a sum over 100 anywhere makes the run fail; and a failure
      counts at most one per enrollment and points at an enrollment whose
      sum was over 100 or whose rows stayed as they were. Letters written
      before a failure stay written. */
  ghost predicate GradingReport(before: seq<Grade>, after: seq<Grade>, roster: seq<Enrollment>, boundaries: seq<real>,
                                r: Outcome<GradeError>)
    requires |boundaries| == 5
  {
    && OnlyFinalGradesChanged(before, after)
    && OthersUnchanged(before, after, roster)
    && (r.Pass? ==> AllFinalized(before, after, roster, boundaries))
    && (SomeSumTooHigh(before, roster, boundaries) ==> r.Fail?)
    && (r.Fail? ==> && r.error.FinalGradesFailed?
                    && 0 < r.error.failCount <= |roster|
                    && SomeFailureTraced(before, after, roster, boundaries))
  }

  /** After a successful run, the final grade a reader of the enrollment's
      rows sees (the gradebook, the transcript) is the letter its verdict
      earned. */
  lemma GradedLetterShown(before: seq<Grade>, after: seq<Grade>, roster: seq<Enrollment>, boundaries: seq<real>, j: int)
    requires |boundaries| == 5 && 0 <= j < |roster|
    requires GradingReport(before, after, roster, boundaries, Pass)
    requires ByEnrollment(before, roster[j].enrollmentId) != []
    ensures FirstFinalGrade(ByEnrollment(after, roster[j].enrollmentId))
            == VerdictLetter(FinalVerdict(ByEnrollment(before, roster[j].enrollmentId), boundaries))
  {
    var id := roster[j].enrollmentId;
    var verdict := FinalVerdict(ByEnrollment(before, id), boundaries);
    var letter := VerdictLetter(verdict);
    assert Finalized(before, after, id, boundaries);
    VerdictLetterStored(verdict);
    var mine := ByEnrollment(after, id);
    forall g | g in mine ensures g.finalGrade == letter {
      var k :| 0 <= k < |after| && after[k] == g;
    }
    var g0 := ByEnrollment(before, id)[0];
    assert g0 in before;
    var k :| 0 <= k < |before| && before[k] == g0;
    assert after[k] in mine;
  }

  /** A section without enrollments is graded successfully and no grade
      row changes. */
  lemma EmptyRosterWritesNothing(before: seq<Grade>, after: seq<Grade>, boundaries: seq<real>, r: Outcome<GradeError>)
    requires |boundaries| == 5
    requires GradingReport(before, after, [], boundaries, r)
    ensures r == Pass && after == before
  {
    assert EnrollmentIds([]) == {};
    assert forall k :: 0 <= k < |before| ==> after[k] == before[k];
  }

  /** Grading nobody changes nothing and succeeds. */
  lemma NothingGraded(rows: seq<Grade>, boundaries: seq<real>)
    requires |boundaries| == 5
    ensures GradingReport(rows, rows, [], boundaries, Pass)
  {
    assert EnrollmentIds([]) == {};
  }

  /** Before the first enrollment the loop has changed nothing. */
  lemma ProgressAtStart(rows: seq<Grade>, boundaries: seq<real>)
    requires |boundaries| == 5
    ensures GradingProgress(rows, rows, [], boundaries, 0)
  {
    assert EnrollmentIds([]) == {};
  }

  /** When the loop has visited the whole roster, its progress is the
      report of the run, with the failure count deciding the outcome. */
  lemma ProgressIsReport(before: seq<Grade>, after: seq<Grade>, roster: seq<Enrollment>, boundaries: seq<real>,
                         failCount: nat)
    requires |boundaries| == 5
    requires GradingProgress(before, after, roster, boundaries, failCount)
    ensures GradingReport(before, after, roster, boundaries,
                          if failCount > 0 then Fail(FinalGradesFailed(failCount)) else Pass)
  {
  }

  /** What one final-grade write does to the table, row by row. */
  lemma WriteFrame(now: seq<Grade>, next: seq<Grade>, enrollmentId: int, saved: bool, letter: Option<string>)
    requires saved ==> next == UpdateWhere(now, OfEnrollment(enrollmentId), SetFinal(letter))
    requires !saved ==> next == now
    ensures |next| == |now|
    ensures forall k :: 0 <= k < |now| ==> next[k] == now[k].(finalGrade := next[k].finalGrade)
    ensures forall k :: 0 <= k < |now| && now[k].enrollmentId != enrollmentId ==> next[k] == now[k]
    ensures saved ==> forall k :: 0 <= k < |now| && now[k].enrollmentId == enrollmentId ==> next[k].finalGrade == letter
  {
  }

  /** The write for `e` keeps the frame of the loop, now including `e`. */
  lemma StepFrame(before: seq<Grade>, now: seq<Grade>, next: seq<Grade>, done: seq<Enrollment>, e: Enrollment,
                  saved: bool, letter: Option<string>)
    requires OnlyFinalGradesChanged(before, now) && OthersUnchanged(before, now, done)
    requires saved ==> next == UpdateWhere(now, OfEnrollment(e.enrollmentId), SetFinal(letter))
    requires !saved ==> next == now
    ensures OnlyFinalGradesChanged(before, next) && OthersUnchanged(before, next, done + [e])
  {
    WriteFrame(now, next, e.enrollmentId, saved, letter);
    assert EnrollmentIds(done + [e]) == EnrollmentIds(done) + {e.enrollmentId};
  }

  /** A successful write for `e` finalizes it and keeps the enrollments
      finalized before it. */
  lemma StepFinalized(before: seq<Grade>, now: seq<Grade>, next: seq<Grade>, done: seq<Enrollment>, e: Enrollment,
                      boundaries: seq<real>, letter: Option<string>)
    requires |boundaries| == 5
    requires OnlyFinalGradesChanged(before, now) && AllFinalized(before, now, done, boundaries)
    requires forall j :: 0 <= j < |done| ==> done[j].enrollmentId != e.enrollmentId
    requires letter.Some? && letter == VerdictLetter(FinalVerdict(ByEnrollment(before, e.enrollmentId), boundaries))
    requires next == UpdateWhere(now, OfEnrollment(e.enrollmentId), SetFinal(letter))
    ensures AllFinalized(before, next, done + [e], boundaries)
  {
    WriteFrame(now, next, e.enrollmentId, true, letter);
    forall j | 0 <= j < |done + [e]| ensures Finalized(before, next, (done + [e])[j].enrollmentId, boundaries) {
      if j < |done| {
        assert (done + [e])[j] == done[j];
        assert Finalized(before, now, done[j].enrollmentId, boundaries);
      }
    }
  }

  /** Failures after the turn for `e` are still traced, and a new one is
      traced by `e` itself. */
  lemma StepTraces(before: seq<Grade>, now: seq<Grade>, next: seq<Grade>, done: seq<Enrollment>, e: Enrollment,
                   boundaries: seq<real>, failedHere: bool)
    requires |boundaries| == 5 && |now| == |before| && |next| == |before|
    requires forall k :: 0 <= k < |now| && now[k].enrollmentId != e.enrollmentId ==> next[k] == now[k]
    requires forall k :: 0 <= k < |now| ==> now[k].enrollmentId == before[k].enrollmentId
    requires forall j :: 0 <= j < |done| ==> done[j].enrollmentId != e.enrollmentId
    requires failedHere ==> SumTooHighFor(before, e, boundaries) || Untouched(before, next, e.enrollmentId)
    ensures SomeSumTooHigh(before, done + [e], boundaries)
            ==> SomeSumTooHigh(before, done, boundaries) || SumTooHighFor(before, e, boundaries)
    ensures SomeFailureTraced(before, now, done, boundaries) ==> SomeFailureTraced(before, next, done + [e], boundaries)
    ensures failedHere ==> SomeFailureTraced(before, next, done + [e], boundaries)
  {
    var all := done + [e];
    if SomeSumTooHigh(before, all, boundaries) {
      var j :| 0 <= j < |all| && SumTooHighFor(before, all[j], boundaries);
      if j < |done| {
        assert all[j] == done[j];
      }
    }
    if SomeFailureTraced(before, now, done, boundaries) {
      var j :| 0 <= j < |done| && (SumTooHighFor(before, done[j], boundaries) || Untouched(before, now, done[j].enrollmentId));
      assert all[j] == done[j];
      assert Untouched(before, now, done[j].enrollmentId) ==> Untouched(before, next, done[j].enrollmentId);
    }
    if failedHere {
      assert all[|done|] == e;
    }
  }

  /** One turn of the grading loop keeps its invariant: the verdict is
      decided on rows no earlier turn has touched, and the write touches
      only the rows of this enrollment. */
  lemma GradingStep(before: seq<Grade>, now: seq<Grade>, next: seq<Grade>, roster: seq<Enrollment>, i: int,
                    boundaries: seq<real>, failCount: nat, verdict: Verdict, saved: bool)
    requires |boundaries| == 5 && 0 <= i < |roster|
    requires Pairwise(roster, Enrollments.DistinctRows)
    requires GradingProgress(before, now, roster[..i], boundaries, failCount)
    requires verdict == FinalVerdict(ByEnrollment(now, roster[i].enrollmentId), boundaries)
    requires saved ==> VerdictLetter(verdict).Some?
                       && next == UpdateWhere(now, OfEnrollment(roster[i].enrollmentId), SetFinal(VerdictLetter(verdict)))
    requires !saved ==> next == now
    ensures verdict == FinalVerdict(ByEnrollment(before, roster[i].enrollmentId), boundaries)
    ensures GradingProgress(before, next, roster[..i + 1], boundaries,
                            if verdict.SumTooHigh? || !saved then failCount + 1 else failCount)
  {
    var done := roster[..i];
    var e := roster[i];
    TakeOneMore(roster, i);
    forall j | 0 <= j < |done| ensures done[j].enrollmentId != e.enrollmentId {
      assert Enrollments.DistinctRows(roster[j], roster[i]);
    }
    assert e.enrollmentId !in EnrollmentIds(done);
    ByEnrollmentUnchanged(now, before, e.enrollmentId);
    var letter := VerdictLetter(verdict);
    StepFrame(before, now, next, done, e, saved, letter);
    WriteFrame(now, next, e.enrollmentId, saved, letter);
    var failed := verdict.SumTooHigh? || !saved;
    if !failed && failCount == 0 {
      StepFinalized(before, now, next, done, e, boundaries, letter);
    }
    StepTraces(before, now, next, done, e, boundaries, failed);
  }

  /** The decision of `computeFinalGrades` for one enrollment's rows:
      "I" when a component is missing, an error for a sum over 100, and
      otherwise the letter of the sum, a negative sum counting as 0. */
  method DecideVerdict(gs: seq<Grade>, boundaries: seq<real>) returns (verdict: Verdict)
    requires |boundaries| == 5
    ensures verdict == FinalVerdict(gs, boundaries)
  {
    var scores := ComponentScores(gs);
    if !HasAllComponents(scores) {
      return Incomplete;
    }
    var sum := scores[QUIZ] + scores[MIDTERM] + scores[ENDSEM];
    if sum > MAX_SCORE {
      return SumTooHigh(sum);
    } else if sum < 0.0 {
      sum := 0.0;
    }
    verdict := Graded(CalculateLetterGrade(sum, boundaries));
  }

  /** The instructor service with the stores it reads and writes. */
  class InstructorService {
    const settings: Settings.SettingsRepository
    const sections: Sections.SectionRepository
    const enrollments: Enrollments.EnrollmentRepository
    const grades: GradeRepository
    const students: Catalog.StudentProfileRepository

    ghost predicate Valid()
      reads this, enrollments, grades
    {
      enrollments.Valid() && grades.Valid()
    }

    constructor(settings: Settings.SettingsRepository, sections: Sections.SectionRepository,
                enrollments: Enrollments.EnrollmentRepository, grades: GradeRepository,
                students: Catalog.StudentProfileRepository)
      ensures this.settings == settings && this.sections == sections && this.enrollments == enrollments
      ensures this.grades == grades && this.students == students
    {
      this.settings := settings;
      this.sections := sections;
      this.enrollments := enrollments;
      this.grades := grades;
      this.students := students;
    }

    /** `getGradebookForSection(sectionId)`: one line per enrollment of the
        section, in roster order. */
    method GetGradebookForSection(sectionId: int) returns (gradebook: seq<GradebookRow>)
      ensures var roster := Enrollments.BySection(enrollments.rows, sectionId);
              && |gradebook| == |roster|
              && forall j :: 0 <= j < |roster| ==> gradebook[j] == GradebookRowFor(roster[j], grades.rows, students.students)
    {
      var roster := enrollments.FindBySectionId(sectionId);
      gradebook := [];
      if roster == [] {
        return;
      }
      var i := 0;
      while i < |roster|
        invariant 0 <= i <= |roster|
        invariant |gradebook| == i
        invariant forall j :: 0 <= j < i ==> gradebook[j] == GradebookRowFor(roster[j], grades.rows, students.students)
      {
        var e := roster[i];
        var rollNo := RollNo(students.students, e.studentId);
        var gs := grades.FindByEnrollmentId(e.enrollmentId);
        var scores := ComponentScores(gs);
        var finalGrade := FirstFinalGrade(gs);
        gradebook := gradebook + [GradebookRow(e.enrollmentId, e.studentId, rollNo, Lookup(scores, QUIZ),
                                               Lookup(scores, MIDTERM), Lookup(scores, ENDSEM), finalGrade)];
        i := i + 1;
      }
    }

    /** `enterScore(instructor, request)`: a failed check writes nothing;
        otherwise the score is upserted under (enrollment, component),
        unless the store refuses. */
    method EnterScore(instructor: User, enrollmentId: int, component: string, score: Option<real>)
      returns (r: Outcome<GradeError>)
      requires Valid()
      modifies grades
      ensures Valid()
      ensures var check := ScoreEntryCheck(settings.table, enrollments.rows, sections.rows, instructor, enrollmentId, score);
              && (check.Fail? ==> r == check && grades.rows == old(grades.rows))
              && (check.Pass? ==> r.Pass? || r == Fail(SaveFailed))
      ensures r.Pass? ==> grades.rows == SavedRows(old(grades.rows), old(grades.nextId), enrollmentId, component, score)
      ensures r.Fail? ==> grades.rows == old(grades.rows)
      ensures NoDuplicateKeys(old(grades.rows)) ==> NoDuplicateKeys(grades.rows)
    {
      if Access.IsMaintenanceModeOn(settings.table) {
        return Fail(GradingMaintenance);
      }
      var enrollment := Enrollments.FindById(enrollments.rows, enrollmentId);
      if enrollment.None? {
        return Fail(EnrollmentMissing);
      }
      var sectionId := enrollment.value.sectionId;
      if !Access.CanInstructorGradeSection(Some(instructor), sections.rows, sectionId) {
        return Fail(NotAuthorized);
      }
      if score.Some? && (score.value < 0.0 || score.value > MAX_SCORE) {
        return Fail(ScoreOutOfRange);
      }
      var saved := grades.SaveOrUpdateScore(enrollmentId, component, score);
      if !saved {
        return Fail(SaveFailed);
      }
      r := Pass;
    }

    /** The body of the grading loop for one enrollment: decide its
        verdict from its rows and write the letter it earns. */
    method FinalizeEnrollment(enrollmentId: int, boundaries: seq<real>) returns (verdict: Verdict, saved: bool)
      requires Valid() && |boundaries| == 5
      modifies grades
      ensures Valid()
      ensures verdict == FinalVerdict(ByEnrollment(old(grades.rows), enrollmentId), boundaries)
      ensures saved ==> VerdictLetter(verdict).Some?
                        && grades.rows == UpdateWhere(old(grades.rows), OfEnrollment(enrollmentId), SetFinal(VerdictLetter(verdict)))
      ensures !saved ==> grades.rows == old(grades.rows)
    {
      var gs := grades.FindByEnrollmentId(enrollmentId);
      verdict := DecideVerdict(gs, boundaries);
      var letter := VerdictLetter(verdict);
      if letter.None? {
        return verdict, false;
      }
      VerdictLetterStored(verdict);
      saved := grades.UpdateFinalGradeForEnrollment(enrollmentId, letter);
    }

    /** `computeFinalGrades(instructor, sectionId, boundaries)`: a failed
        check writes nothing; otherwise every enrollment of the section is
        graded in turn, as `GradingReport` describes. */
    method ComputeFinalGrades(instructor: User, sectionId: int, boundaries: Option<seq<real>>)
      returns (r: Outcome<GradeError>)
      requires Valid()
      modifies grades
      ensures Valid()
      ensures var check := FinalGradeCheck(settings.table, sections.rows, instructor, sectionId, boundaries);
              && (check.Fail? ==> r == check && grades.rows == old(grades.rows))
              && (check.Pass? ==> GradingReport(old(grades.rows), grades.rows,
                                                Enrollments.BySection(enrollments.rows, sectionId), boundaries.value, r))
    {
      if Access.IsMaintenanceModeOn(settings.table) {
        return Fail(GradingMaintenance);
      }
      if !Access.CanInstructorGradeSection(Some(instructor), sections.rows, sectionId) {
        return Fail(NotAuthorized);
      }
      r := ValidateBoundaries(boundaries);
      if r.Fail? {
        return;
      }
      var b := boundaries.value;
      var roster := enrollments.FindBySectionId(sectionId);
      if roster == [] {
        NothingGraded(grades.rows, b);
        return Pass;
      }
      Enrollments.RosterDistinct(enrollments.rows, enrollments.nextId, sectionId);
      var failCount := GradeRoster(roster, b);
      ProgressIsReport(old(grades.rows), grades.rows, roster, b, failCount);
      if failCount > 0 {
        return Fail(FinalGradesFailed(failCount));
      }
      r := Pass;
    }

    /** The loop of `computeFinalGrades`: each enrollment of the roster in
        turn is finalized, and every refused or over-100 one is counted.
        The service also counts successes and incompletes, but only for its
        log. */
    method GradeRoster(roster: seq<Enrollment>, b: seq<real>) returns (failCount: nat)
      requires Valid() && |b| == 5
      requires Pairwise(roster, Enrollments.DistinctRows)
      modifies grades
      ensures Valid()
      ensures GradingProgress(old(grades.rows), grades.rows, roster, b, failCount)
    {
      failCount := 0;
      ghost var before := grades.rows;
      ProgressAtStart(before, b);
      assert roster[..0] == [];
      var i := 0;
      while i < |roster|
        invariant 0 <= i <= |roster|
        invariant Valid()
        invariant GradingProgress(before, grades.rows, roster[..i], b, failCount)
      {
        failCount := GradeNext(roster, i, b, before, failCount);
        i := i + 1;
      }
      assert roster[..i] == roster;
    }

    /** One turn of the grading loop: finalize the next enrollment and
        count it if its sum was over 100 or its write was refused. */
    method GradeNext(roster: seq<Enrollment>, i: int, b: seq<real>, ghost before: seq<Grade>, failCount: nat)
      returns (failCount': nat)
      requires Valid() && |b| == 5 && 0 <= i < |roster|
      requires Pairwise(roster, Enrollments.DistinctRows)
      requires GradingProgress(before, grades.rows, roster[..i], b, failCount)
      modifies grades
      ensures Valid()
      ensures GradingProgress(before, grades.rows, roster[..i + 1], b, failCount')
    {
      ghost var now := grades.rows;
      var verdict, saved := FinalizeEnrollment(roster[i].enrollmentId, b);
      GradingStep(before, now, grades.rows, roster, i, b, failCount, verdict, saved);
      failCount' := if verdict.SumTooHigh? || !saved then failCount + 1 else failCount;
    }

    /** `getSectionStatistics(sectionId)`: gathers the section's scores per
        component while scanning the roster, then averages each list. */
    method GetSectionStatistics(sectionId: int) returns (averages: map<string, real>)
      ensures averages == Averages(SectionScores(Enrollments.BySection(enrollments.rows, sectionId), grades.rows))
    {
      var roster := enrollments.FindBySectionId(sectionId);
      averages := map[];
      if roster == [] {
        return;
      }
      var byComponent: map<string, seq<real>> := map[];
      var i := 0;
      while i < |roster|
        invariant 0 <= i <= |roster|
        invariant byComponent == SectionScores(roster[..i], grades.rows)
      {
        assert roster[..i + 1][..i] == roster[..i];
        var gs := grades.FindByEnrollmentId(roster[i].enrollmentId);
        byComponent := GatherScores(byComponent, gs);
        i := i + 1;
      }
      assert roster[..i] == roster;
      averages := AverageEach(byComponent);
    }
  }
}
