/**
 * The records of models.py: a menstrual period and the forbidden days
 * computed from it.
 *
 * In the source a forbidden day points back at its period object and reads
 * the period's month through that reference. Here it keeps a copy of the
 * period's date and month instead, so the records stay plain values.
 */
module Models {
  import opened Options
  import opened Calendar

  /** `restriction_details`: `[restriction_name, time_of_day, period month]`. */
  datatype RestrictionDetails = RestrictionDetails(name: string, timeOfDay: int, sourceMonth: int)

  /** `ForbiddenDay`: one restricted date derived from a period. */
  datatype ForbiddenDay = ForbiddenDay(
    sourceDate: Day,
    sourceMonth: int,
    name: string,
    date: Day,
    year: int,
    month: int,
    day: int,
    weekday: int,
    timeOfDay: int)
  {
    /** `restriction_details`. */
    function Details(): RestrictionDetails {
      RestrictionDetails(name, timeOfDay, sourceMonth)
    }
  }

  /**
   * One element of a period's forbidden-day list: a single forbidden day,
   * or the nested list of unbroken-interval days.
   */
  datatype Entry = Single(fd: ForbiddenDay) | Group(days: seq<ForbiddenDay>)

  /** `MenstrualPeriod`. `cycleInterval` is `None` where the source holds `None`. */
  datatype MenstrualPeriod = MenstrualPeriod(
    hebrewDate: Day,
    timeOfDay: int,
    weekday: int,
    cycleInterval: Option<int>,
    forbiddenDays: seq<Entry>)

  /** `MenstrualPeriod(hebrew_date, time_of_day, cycle_interval)`. */
  function NewMenstrualPeriod(cal: Calendar, date: Day, timeOfDay: int, cycleInterval: Option<int>): (p: MenstrualPeriod)
    ensures p.hebrewDate == date && p.timeOfDay == timeOfDay && p.cycleInterval == cycleInterval
    ensures p.weekday == cal.weekday(date)
    ensures p.forbiddenDays == []
  {
    MenstrualPeriod(date, timeOfDay, cal.weekday(date), cycleInterval, [])
  }

  /**
   * `ForbiddenDay(period, name, date, time_of_day)` for a period dated
   * `source`: the calendar fields are those of `date`, the details carry the
   * source period's month.
   */
  function NewForbiddenDay(cal: Calendar, source: Day, name: string, date: Day, timeOfDay: int): (f: ForbiddenDay)
    ensures f.sourceDate == source && f.name == name && f.date == date && f.timeOfDay == timeOfDay
    ensures f.year == cal.year(date) && f.month == cal.month(date) && f.day == cal.dayOfMonth(date)
    ensures f.weekday == cal.weekday(date)
    ensures f.Details() == RestrictionDetails(name, timeOfDay, cal.month(source))
  {
    ForbiddenDay(source, cal.month(source), name, date,
                 cal.year(date), cal.month(date), cal.dayOfMonth(date), cal.weekday(date), timeOfDay)
  }

  /** `add_forbidden_day`: appends at the end; everything else is kept. */
  function AddForbiddenDay(p: MenstrualPeriod, e: Entry): (q: MenstrualPeriod)
    ensures |q.forbiddenDays| == |p.forbiddenDays| + 1
    ensures q.forbiddenDays[..|p.forbiddenDays|] == p.forbiddenDays
    ensures q.forbiddenDays[|p.forbiddenDays|] == e
    ensures q.(forbiddenDays := p.forbiddenDays) == p
  {
    p.(forbiddenDays := p.forbiddenDays + [e])
  }

  /**
   * The `period_details` setter: with at least two elements it takes the
   * first as the time of day and the second as the cycle interval; with
   * fewer it changes nothing. Reading the details back gives what was set.
   */
  function SetPeriodDetails(p: MenstrualPeriod, details: seq<Option<int>>): (q: MenstrualPeriod)
    requires |details| >= 2 ==> details[0].Some?
    ensures |details| >= 2 ==> [Some(q.timeOfDay), q.cycleInterval] == details[..2]
    ensures |details| < 2 ==> q == p
    ensures q.hebrewDate == p.hebrewDate && q.weekday == p.weekday && q.forbiddenDays == p.forbiddenDays
  {
    if |details| >= 2 then p.(timeOfDay := details[0].value, cycleInterval := details[1]) else p
  }

  /**
   * The `period_details` getter: `[time_of_day, cycle_interval]`; writing
   * it back through the setter leaves the period as it was.
   */
  function PeriodDetails(p: MenstrualPeriod): (d: seq<Option<int>>)
    ensures |d| == 2 && d[0] == Some(p.timeOfDay) && d[1] == p.cycleInterval
    ensures SetPeriodDetails(p, d) == p
  {
    [Some(p.timeOfDay), p.cycleInterval]
  }
}
