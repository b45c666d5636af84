/** The access gate the services consult: the maintenance flag, and whether
    a user may grade a section. */
module Access {
  import opened Wrappers
  import opened Seqs
  import opened Domain
  import Settings
  import Sections

  /** `isMaintenanceModeOn()`: exactly the settings flag; the gate reads
      the table and writes nothing. */
  predicate IsMaintenanceModeOn(settings: Settings.Table) {
    Settings.MaintenanceOn(settings)
  }

  /** With the flag stored as "true" in any case the gate is closed, and
      with no flag stored it is open. */
  lemma MaintenanceGate(settings: Settings.Table, enabled: bool)
    ensures IsMaintenanceModeOn(settings[Settings.MAINTENANCE_KEY := Settings.FlagText(enabled)]) == enabled
    ensures Settings.MAINTENANCE_KEY !in settings ==> !IsMaintenanceModeOn(settings)
  {
    Settings.MaintenanceRoundTrip(settings, enabled);
    if Settings.MAINTENANCE_KEY !in settings {
      Settings.MaintenanceDefaultsOff(settings);
    }
  }

  /** `canInstructorGradeSection(user, sectionId)`: only a logged-in
      instructor, only for an existing section, and only when that section
      names the instructor as its own. An unassigned section can be graded
      by nobody. */
  predicate CanInstructorGradeSection(user: Option<User>, sections: seq<Section>, sectionId: int): (r: bool)
    ensures r ==> user.Some? && user.value.role == Instructor
    ensures r ==> exists s :: s in sections && s.sectionId == sectionId && s.instructorId == Some(user.value.userId)
    ensures (forall s :: s in sections ==> s.sectionId != sectionId) ==> !r
  {
    && user.Some?
    && user.value.role == Instructor
    && match Sections.FindById(sections, sectionId)
       case None => false
       case Some(section) => section.instructorId == Some(user.value.userId)
  }

  /** In a valid sections table the gate opens for an instructor exactly
      when the section with that id is assigned to them. */
  lemma CanGradeIff(user: User, sections: seq<Section>, nextId: int, sectionId: int)
    requires Sections.TableValid(sections, nextId)
    requires user.role == Instructor
    ensures CanInstructorGradeSection(Some(user), sections, sectionId)
            <==> exists s :: s in sections && s.sectionId == sectionId && s.instructorId == Some(user.userId)
  {
    if s :| s in sections && s.sectionId == sectionId && s.instructorId == Some(user.userId) {
      var found := Sections.FindById(sections, sectionId).value;
      Sections.SameIdSameSection(sections, nextId, s, found);
    }
  }

  /** A section without an instructor is closed to every user. */
  lemma UnassignedSectionClosed(user: Option<User>, sections: seq<Section>, nextId: int, sectionId: int)
    requires Sections.TableValid(sections, nextId)
    requires exists s :: s in sections && s.sectionId == sectionId && s.instructorId.None?
    ensures !CanInstructorGradeSection(user, sections, sectionId)
  {
    var s :| s in sections && s.sectionId == sectionId && s.instructorId.None?;
    if Sections.FindById(sections, sectionId).Some? {
      Sections.SameIdSameSection(sections, nextId, s, Sections.FindById(sections, sectionId).value);
    }
  }
}
