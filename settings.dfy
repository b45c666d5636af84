/** The settings store: one key/value table with an upsert, and typed
    accessors that parse the stored text with a default. */
module Settings {
  import opened Wrappers
  import opened Text
  import opened Dates

  const MAINTENANCE_KEY: string := "maintenance_on"
  const SEMESTER_KEY: string := "current_semester"
  const YEAR_KEY: string := "current_year"
  const DROP_DEADLINE_KEY: string := "drop_deadline"
  const REGISTRATION_DEADLINE_KEY: string := "registration_deadline"

  /** The settings table. A key whose stored value is SQL NULL reads like
      an absent key, so the table keeps only non-null values. */
  type Table = map<string, string>

  /** `getSettingValue(key)`: the stored text, if any. */
  function SettingValue(t: Table, key: string): (r: Option<string>)
    ensures r.Some? <==> key in t
    ensures r.Some? ==> r.value == t[key]
  {
    if key in t then Some(t[key]) else None
  }

  /** `isMaintenanceModeOn()`: the stored flag equals "true" ignoring
      case; an absent flag is "false". */
  predicate MaintenanceOn(t: Table) {
    EqualsIgnoreCase(SettingValue(t, MAINTENANCE_KEY).GetOr("false"), "true")
  }

  /** The text `setMaintenanceMode(enabled)` stores. */
  function FlagText(enabled: bool): string {
    if enabled then "true" else "false"
  }

  /** `getCurrentSemester()`, defaulting to "Unknown". */
  function CurrentSemester(t: Table): string {
    SettingValue(t, SEMESTER_KEY).GetOr("Unknown")
  }

  /** `getCurrentYear()`: `Integer.parseInt` of the stored text (of "0"
      when absent), and 0 when that text is not a 32-bit decimal. */
  function CurrentYear(t: Table): (y: int)
    ensures INT_MIN <= y <= INT_MAX
  {
    match ParseInt(SettingValue(t, YEAR_KEY).GetOr("0"))
    case Some(v) => v
    case None => 0
  }

  /** `getDropDeadline()` / `getRegistrationDeadline()`: the stored text
      parsed as an ISO date; absent or unparsable text gives `None`. */
  function Deadline(t: Table, key: string): (r: Option<Date>)
    ensures r.Some? ==> key in t && t[key] == FormatDate(r.value)
  {
    match SettingValue(t, key)
    case Some(text) => ParseDate(text)
    case None => None
  }

  /** Writing a flag and reading it back gives that flag. */
  lemma MaintenanceRoundTrip(t: Table, enabled: bool)
    ensures MaintenanceOn(t[MAINTENANCE_KEY := FlagText(enabled)]) == enabled
  {
    var t' := t[MAINTENANCE_KEY := FlagText(enabled)];
    assert SettingValue(t', MAINTENANCE_KEY) == Some(FlagText(enabled));
    if !enabled {
      assert Lower("false")[0] != Lower("true")[0];
    } else {
      assert Lower("true") == "true";
    }
  }

  /** With no flag stored, maintenance is off. */
  lemma MaintenanceDefaultsOff(t: Table)
    requires MAINTENANCE_KEY !in t
    ensures !MaintenanceOn(t)
  {
    assert Lower("false")[0] != Lower("true")[0];
  }

  /** With no year stored, or a stored year that is not a number, the
      current year is 0. */
  lemma CurrentYearDefault(t: Table)
    requires YEAR_KEY !in t || ParseInt(t[YEAR_KEY]).None?
    ensures CurrentYear(t) == 0
  {
    if YEAR_KEY !in t {
      assert "0"[0] == '0' && "0"[..0] == [];
      assert DigitsValue("0") == 0;
    }
  }

  /** A year written as decimal text reads back as that year. */
  lemma CurrentYearRoundTrip(t: Table, year: int)
    requires INT_MIN <= year <= INT_MAX
    ensures CurrentYear(t[YEAR_KEY := IntToString(year)]) == year
  {
    ParseIntToString(year);
  }

  /** A deadline written as ISO text reads back as that date. */
  lemma DeadlineRoundTrip(t: Table, key: string, d: Date)
    ensures Deadline(t[key := FormatDate(d)], key) == Some(d)
  {
    ParseFormatRoundTrip(d);
  }

  /** The settings store. */
  class SettingsRepository {
    var table: Table

    constructor(initial: Table)
      ensures table == initial
    {
      table := initial;
    }

    /** `setSettingValue(key, value)`: an upsert of one key. A store error
        returns false and changes nothing. */
    method SetSettingValue(key: string, value: string) returns (ok: bool)
      modifies this
      ensures ok ==> table == old(table)[key := value]
      ensures !ok ==> table == old(table)
    {
      ok := *;
      if ok {
        table := table[key := value];
      }
    }

    /** `setMaintenanceMode(enabled)`; when it succeeds the flag reads back
        as `enabled` and no other key changes. */
    method SetMaintenanceMode(enabled: bool) returns (ok: bool)
      modifies this
      ensures ok ==> table == old(table)[MAINTENANCE_KEY := FlagText(enabled)]
      ensures ok ==> MaintenanceOn(table) == enabled
      ensures !ok ==> table == old(table)
    {
      ok := SetSettingValue(MAINTENANCE_KEY, FlagText(enabled));
      if ok {
        MaintenanceRoundTrip(old(table), enabled);
      }
    }

    /** `setDropDeadline(deadline)`: a null date is refused with false;
        otherwise the ISO text is stored and reads back as that date. */
    method SetDropDeadline(deadline: Option<Date>) returns (ok: bool)
      modifies this
      ensures deadline.None? ==> !ok
      ensures ok ==> table == old(table)[DROP_DEADLINE_KEY := FormatDate(deadline.value)]
      ensures ok ==> Deadline(table, DROP_DEADLINE_KEY) == deadline
      ensures !ok ==> table == old(table)
    {
      ok := SetDeadline(DROP_DEADLINE_KEY, deadline);
    }

    /** `setRegistrationDeadline(deadline)`, the same for the registration
        deadline. */
    method SetRegistrationDeadline(deadline: Option<Date>) returns (ok: bool)
      modifies this
      ensures deadline.None? ==> !ok
      ensures ok ==> table == old(table)[REGISTRATION_DEADLINE_KEY := FormatDate(deadline.value)]
      ensures ok ==> Deadline(table, REGISTRATION_DEADLINE_KEY) == deadline
      ensures !ok ==> table == old(table)
    {
      ok := SetDeadline(REGISTRATION_DEADLINE_KEY, deadline);
    }

    method SetDeadline(key: string, deadline: Option<Date>) returns (ok: bool)
      modifies this
      ensures deadline.None? ==> !ok
      ensures ok ==> table == old(table)[key := FormatDate(deadline.value)]
      ensures ok ==> Deadline(table, key) == deadline
      ensures !ok ==> table == old(table)
    {
      if deadline.None? {
        return false;
      }
      ok := SetSettingValue(key, FormatDate(deadline.value));
      if ok {
        DeadlineRoundTrip(old(table), key, deadline.value);
      }
    }
  }
}
