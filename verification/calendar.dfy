/**
 * The Hebrew calendar library (pyluach) as the rule engine sees it.
 *
 * A date is an integer day ordinal: `date + n` is `n` days later and
 * `b - a` is the signed number of days between two dates. Everything the
 * library computes about a date (its year, month and day of month, its
 * weekday, the length of a month, and whether a year/month/day triple names
 * a date at all) is a parameter of the model: a `Calendar` value carries
 * those functions, and every operation that needs one takes it as an
 * argument.
 */
module Calendar {
  import opened Options

  /** A calendar date as a day ordinal. */
  type Day = int

  datatype Calendar = Calendar(
    /** `date.year`, `date.month`, `date.day` of a Hebrew date. */
    year: Day -> int,
    month: Day -> int,
    dayOfMonth: Day -> int,
    /** `date.weekday()`: 1 (Sunday) to 7 (Sabbath). */
    weekday: Day -> int,
    /** The number of days of Hebrew month `month` of year `year`. */
    monthLength: (int, int) -> int,
    /**
     * `dates.HebrewDate(year, month, day)`: the date, or `None` where the
     * library raises `ValueError` because no such date exists.
     */
    hebrewDate: (int, int, int) -> Option<Day>,
    /**
     * `datetime(year, month, day)` followed by `HebrewDate.from_pydate`:
     * the Hebrew date of a Gregorian date, or `None` where `datetime`
     * raises `ValueError`.
     */
    fromGregorian: (int, int, int) -> Option<Day>
  )

  /** The length of the month that `d` falls in. */
  function MonthLengthOf(cal: Calendar, d: Day): int {
    cal.monthLength(cal.year(d), cal.month(d))
  }

  /** `d` is rebuilt by the library from its own year, month and day. */
  predicate Rebuildable(cal: Calendar, d: Day) {
    cal.hebrewDate(cal.year(d), cal.month(d), cal.dayOfMonth(d)) == Some(d)
  }
}
