/**
 * calculator.py, the earlier draft of the engine: its `Period` record, its
 * line reader `convert_date_to_period` and its engine `get_seclusions`.
 *
 * A `Seclusion` of this draft holds exactly what a `ForbiddenDay` holds
 * (period, name, date, its year/month/day/weekday, time of day, and details
 * `[name, ona, period month]`), so it is the same record here.
 */
module Calculator {
  import opened Options
  import opened Calendar
  import opened Models
  import Text
  import Calculations
  import Parsers

  /** The draft's `Period`: `ona` is the time of day, `haflaga` the cycle interval. */
  datatype Period = Period(date: Day, ona: int, weekday: int, haflaga: Option<int>, seclusionList: seq<Entry>)

  /** `Period(date, ona, haflaga)`. */
  function NewPeriod(cal: Calendar, date: Day, ona: int, haflaga: Option<int>): (p: Period)
    ensures p.date == date && p.ona == ona && p.haflaga == haflaga
    ensures p.weekday == cal.weekday(date)
    ensures p.seclusionList == []
  {
    Period(date, ona, cal.weekday(date), haflaga, [])
  }

  /** `add_seclusion`: appends at the end; everything else is kept. */
  function AddSeclusion(p: Period, e: Entry): (q: Period)
    ensures |q.seclusionList| == |p.seclusionList| + 1
    ensures q.seclusionList[..|p.seclusionList|] == p.seclusionList && q.seclusionList[|p.seclusionList|] == e
    ensures q.(seclusionList := p.seclusionList) == p
  {
    p.(seclusionList := p.seclusionList + [e])
  }

  /** The `details` getter: `[ona, haflaga]`, the same shape as `period_details` of models.py. */
  function Details(p: Period): (d: seq<Option<int>>)
    ensures d == PeriodDetails(AsMenstrualPeriod(p))
  {
    [Some(p.ona), p.haflaga]
  }

  /** The models.py period holding the same date, time of day, weekday and interval. */
  function AsMenstrualPeriod(p: Period): MenstrualPeriod {
    MenstrualPeriod(p.date, p.ona, p.weekday, p.haflaga, [])
  }

  /**
   * `Seclusion(period, name, date, ona)`: the calendar fields are those of
   * `date`, the details carry the name, the time of day and the month of
   * the period it comes from.
   */
  function NewSeclusion(cal: Calendar, p: Period, name: string, date: Day, ona: int): (e: ForbiddenDay)
    ensures e.sourceDate == p.date && e.name == name && e.date == date && e.timeOfDay == ona
    ensures e.year == cal.year(date) && e.month == cal.month(date) && e.day == cal.dayOfMonth(date)
    ensures e.weekday == cal.weekday(date)
    ensures e.Details() == RestrictionDetails(name, ona, cal.month(p.date))
  {
    NewForbiddenDay(cal, p.date, name, date, ona)
  }

  /** The exceptions the draft lets escape. */
  datatype PyError = ValueError | TypeError | UnboundLocalError

  /** What a call returns, or the exception it raises. */
  datatype Outcome<T> = Returned(value: T) | Raised(error: PyError)

  /**
   * `convert_date_to_period(date_txt)`. One field gives `None`; otherwise
   * every '/'-part of the date and the first character of the second field
   * go through `int()` (a failure escapes as `ValueError`); a time of day
   * of 0 or 1 builds `HebrewDate(*reversed(parts))`, which needs exactly
   * three parts (else `TypeError`) and a real date (else `ValueError`); any
   * other time of day reaches `return period` with `period` unbound.
   */
  function ConvertDateToPeriod(cal: Calendar, text: string): (r: Outcome<Option<Period>>)
    ensures var f := Text.SplitWs(text);
      |f| <= 1 <==> r == Returned(None)
    ensures var f := Text.SplitWs(text);
      r.Returned? && r.value.Some? ==>
        var parts := Text.Split(f[0], '/');
        && |parts| == 3
        && Text.ParseInt([f[1][0]]) == Some(r.value.value.ona)
        && r.value.value.ona in {0, 1}
        && Text.ParseInts(parts).Some?
        && (var ds := Text.ParseInts(parts).value; cal.hebrewDate(ds[2], ds[1], ds[0]) == Some(r.value.value.date))
        && r.value.value.haflaga == None
        && r.value.value.seclusionList == []
    ensures var f := Text.SplitWs(text);
      (&& |f| > 1
       && Text.ParseInts(Text.Split(f[0], '/')).Some?
       && Text.ParseInt([f[1][0]]).Some?
       && Text.ParseInt([f[1][0]]).value !in {0, 1})
      ==> r == Raised(UnboundLocalError)
    ensures var f := Text.SplitWs(text);
      |f| > 1 ==>
        var ds, ona := Text.ParseInts(Text.Split(f[0], '/')), Text.ParseInt([f[1][0]]);
        && (ds.None? ==> r == Raised(ValueError))
        && (ds.Some? && ona.None? ==> r == Raised(ValueError))
        && (ds.Some? && ona.Some? && ona.value in {0, 1} && |ds.value| != 3 ==> r == Raised(TypeError))
        && (ds.Some? && ona.Some? && ona.value in {0, 1} && |ds.value| == 3 ==>
              var day := cal.hebrewDate(ds.value[2], ds.value[1], ds.value[0]);
              && (day.None? ==> r == Raised(ValueError))
              && (day.Some? ==> r == Returned(Some(NewPeriod(cal, day.value, ona.value, None)))))
  {
    var details := Text.SplitWs(text);
    if |details| > 1 then
      match Text.ParseInts(Text.Split(details[0], '/'))
      case None => Raised(ValueError)
      case Some(digits) =>
        match Text.ParseInt([details[1][0]])
        case None => Raised(ValueError)
        case Some(ona) =>
          if ona == 1 || ona == 0 then
            if |digits| != 3 then Raised(TypeError)
            else
              match cal.hebrewDate(digits[2], digits[1], digits[0])
              case None => Raised(ValueError)
              case Some(d) => Returned(Some(NewPeriod(cal, d, ona, None)))
          else Raised(UnboundLocalError)
    else Returned(None)
  }

  /**
   * The draft reader and the reader of src/parsers.py accept the same
   * lines and read the same period from them.
   */
  lemma ConvertAgreesWithReader(cal: Calendar, text: string)
    ensures var r, o := ConvertDateToPeriod(cal, text), Parsers.ReadLine(cal, text);
      && (o.Parsed? <==> r.Returned? && r.value.Some?)
      && (o.Parsed? ==> AsMenstrualPeriod(r.value.value) == o.period)
  {
    var f := Text.SplitWs(text);
    var r, o := ConvertDateToPeriod(cal, text), Parsers.ReadLine(cal, text);
    if r.Returned? && r.value.Some? {
      var q := r.value.value;
      Text.ParseSingleChar(f[1][0]);
      assert Parsers.FieldsDenote(cal, f, q.date, q.ona);
    }
    if o.Parsed? {
      assert Parsers.FieldsDenote(cal, f, o.period.hebrewDate, o.period.timeOfDay);
    }
  }

  /**
   * The first part of `get_seclusions(period, haflagot_list)`: the same three
   * standard days and 'הפלגה' as calculations.py, then the unbroken-interval
   * group whenever the list has at least two entries.
   */
  function DraftStandardList(cal: Calendar, p: Period, haflagot: seq<int>): seq<Entry> {
    var date := p.date;
    var monthLen := MonthLengthOf(cal, date);
    var onaBeinonit30 := NewSeclusion(cal, p, Calculations.Ona30Name, date + 29, p.ona);
    var vesetHachodesh := NewSeclusion(cal, p, Calculations.MonthlyName, date + monthLen, p.ona);
    var onaBeinonit31 := NewSeclusion(cal, p, Calculations.Ona31Name, date + 30, p.ona);
    var list0 := [Single(onaBeinonit30), Single(vesetHachodesh), Single(onaBeinonit31)];
    var list1 :=
      if p.haflaga.Some? && p.haflaga.value != 0 then
        list0 + [Single(NewSeclusion(cal, p, Calculations.HaflagaName, date + p.haflaga.value - 1, p.ona))]
      else list0;
    if |haflagot| > 0 && |haflagot| >= 2 then
      list1 + [Group(Calculations.PatternDays(cal, AsMenstrualPeriod(p), Calculations.UnbrokenValues(haflagot)))]
    else list1
  }

  /**
   * The draft appends the group under a different test (at least two
   * entries, without checking the group is non-empty) but the lists agree,
   * because two or more intervals always keep their maximum.
   */
  lemma DraftStandardListAgrees(cal: Calendar, p: Period, haflagot: seq<int>)
    ensures DraftStandardList(cal, p, haflagot) == Calculations.StandardEntries(cal, AsMenstrualPeriod(p), haflagot)
  {
    var mp := AsMenstrualPeriod(p);
    if |haflagot| >= 2 {
      var g := Calculations.UnbrokenPatterns(cal, mp, haflagot);
      assert g == Some(Calculations.PatternDays(cal, mp, Calculations.UnbrokenValues(haflagot)));
    } else if |haflagot| > 0 {
      assert Calculations.UnbrokenPatterns(cal, mp, haflagot) == None;
    }
  }

  /**
   * `get_seclusions(period, haflagot_list)`: for equal inputs it yields
   * exactly what `calculate_forbidden_days` yields.
   */
  function GetSeclusions(cal: Calendar, p: Period, haflagot: seq<int>): (r: seq<Entry>)
    ensures r == Calculations.CalculateForbiddenDays(cal, AsMenstrualPeriod(p), haflagot)
  {
    var seclusionList := DraftStandardList(cal, p, haflagot);
    DraftStandardListAgrees(cal, p, haflagot);
    var onaBeinonit30 := NewSeclusion(cal, p, Calculations.Ona30Name, p.date + 29, p.ona);
    assert onaBeinonit30 == Calculations.Ona30(cal, AsMenstrualPeriod(p));
    if p.ona == 0 then
      var orZarua := NewSeclusion(cal, p, Calculations.OrZaruaName, onaBeinonit30.date - 1, p.ona + 1);
      var kartyupleity := NewSeclusion(cal, p, Calculations.KartyupleityName, onaBeinonit30.date, p.ona + 1);
      Calculations.Insert(Calculations.Insert(seclusionList, 0, Single(orZarua)), 2, Single(kartyupleity))
    else
      var orZarua := NewSeclusion(cal, p, Calculations.OrZaruaName, onaBeinonit30.date, p.ona - 1);
      Calculations.Insert(seclusionList, 0, Single(orZarua))
  }
}
