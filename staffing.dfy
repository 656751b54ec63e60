/** The head counts a date needs (src/App.jsx:158-166): weekend counts on
    Saturdays and Sundays, and on listed public holidays when the setting
    says so; weekday counts otherwise. */
module Staffing {
  import opened Calendar

  /** The staffing settings of src/App.jsx:76-78; the form keeps every
      count at zero or above (src/App.jsx:289). */
  datatype StaffingConfig = StaffingConfig(
    weekdayDay: nat, weekdayNight: nat,
    weekendDay: nat, weekendNight: nat,
    treatPublicHolidaysAsWeekends: bool)

  /** Required day-shift and night-shift head counts of one date. */
  datatype Requirement = Requirement(day: nat, night: nat)

  function WeekdayRequirement(cfg: StaffingConfig): Requirement {
    Requirement(cfg.weekdayDay, cfg.weekdayNight)
  }

  function WeekendRequirement(cfg: StaffingConfig): Requirement {
    Requirement(cfg.weekendDay, cfg.weekendNight)
  }

  /** The date is staffed like a weekend. */
  predicate StaffedAsWeekend(cfg: StaffingConfig, holidays: seq<string>, dt: Date)
    requires 1000 <= dt.year && 1 <= dt.month <= 12 && dt.day >= 0
  {
    (DateKey(dt) in holidays && cfg.treatPublicHolidaysAsWeekends) || IsWeekend(dt)
  }

  /** `requiredDayStaff` and `requiredNightStaff` of src/App.jsx:161-166. */
  function RequiredStaff(cfg: StaffingConfig, holidays: seq<string>, dt: Date): (r: Requirement)
    requires 1000 <= dt.year && 1 <= dt.month <= 12 && dt.day >= 0
  {
    if StaffedAsWeekend(cfg, holidays, dt) then WeekendRequirement(cfg) else WeekdayRequirement(cfg)
  }

  /** Saturdays and Sundays take the weekend counts whatever the holiday
      list and the setting say. */
  lemma WeekendsUseWeekendCounts(cfg: StaffingConfig, holidays: seq<string>, dt: Date)
    requires 1000 <= dt.year && 1 <= dt.month <= 12 && dt.day >= 0
    requires DayOfWeek(dt) == 0 || DayOfWeek(dt) == 6
    ensures RequiredStaff(cfg, holidays, dt) == WeekendRequirement(cfg)
  {
  }

  /** A listed public holiday on a weekday takes the weekend counts when the
      setting is on and the weekday counts when it is off. */
  lemma PublicHolidayCounts(cfg: StaffingConfig, holidays: seq<string>, dt: Date)
    requires 1000 <= dt.year && 1 <= dt.month <= 12 && dt.day >= 0
    requires DateKey(dt) in holidays && !IsWeekend(dt)
    ensures RequiredStaff(cfg, holidays, dt) ==
      if cfg.treatPublicHolidaysAsWeekends then WeekendRequirement(cfg) else WeekdayRequirement(cfg)
  {
  }

  /** With the setting off, the holiday list changes nothing. */
  lemma HolidaysIgnoredWhenSettingOff(cfg: StaffingConfig, holidays: seq<string>, dt: Date)
    requires 1000 <= dt.year && 1 <= dt.month <= 12 && dt.day >= 0
    requires !cfg.treatPublicHolidaysAsWeekends
    ensures RequiredStaff(cfg, holidays, dt) == RequiredStaff(cfg, [], dt)
  {
  }

  /** A weekday absent from the holiday list takes the weekday counts. */
  lemma OrdinaryWeekdayCounts(cfg: StaffingConfig, holidays: seq<string>, dt: Date)
    requires 1000 <= dt.year && 1 <= dt.month <= 12 && dt.day >= 0
    requires 1 <= DayOfWeek(dt) <= 5 && DateKey(dt) !in holidays
    ensures RequiredStaff(cfg, holidays, dt) == WeekdayRequirement(cfg)
  {
  }
}
