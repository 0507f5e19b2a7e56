/**
 * utils/date_converter.py: reading a date typed by the user, either as a
 * Hebrew date "day/month/year", as a Gregorian date in one of three
 * layouts, or as the keyword "today", followed by the time of day; and
 * writing a Hebrew date back in the layout the reader accepts.
 *
 * The current date (`datetime.now()` converted to a Hebrew date) is a
 * parameter, `today`.
 */
module DateConverter {
  import opened Options
  import opened Calendar
  import Text

  // ---------------------------------------------------------------------
  // convert_gregorian_to_hebrew
  // ---------------------------------------------------------------------

  /**
   * Three Gregorian parts to a Hebrew date: a first part four characters
   * long is the year (year, month, day), otherwise the parts are day,
   * month, year. `None` for a part count other than three, a part that is
   * not an integer, or a date `datetime` refuses.
   */
  function GregorianFromParts(cal: Calendar, parts: seq<string>): (r: Option<Day>)
    ensures |parts| != 3 ==> r == None
    ensures r.Some? ==> Text.ParseInts(parts).Some?
    ensures |parts| == 3 && Text.ParseInts(parts).Some? ==>
      var ns := Text.ParseInts(parts).value;
      r == if |parts[0]| == 4 then cal.fromGregorian(ns[0], ns[1], ns[2]) else cal.fromGregorian(ns[2], ns[1], ns[0])
  {
    if |parts| != 3 then None
    else
      match Text.ParseInts(parts)
      case None => None
      case Some(ns) =>
        if |parts[0]| == 4 then cal.fromGregorian(ns[0], ns[1], ns[2])
        else cal.fromGregorian(ns[2], ns[1], ns[0])
  }

  /**
   * `convert_gregorian_to_hebrew(text)`: the text is split on '/' when it
   * holds one, else on '-' when it holds one; text with neither gives
   * `None`.
   */
  function ConvertGregorianToHebrew(cal: Calendar, text: string): (r: Option<Day>)
    ensures '/' in text ==> r == GregorianFromParts(cal, Text.Split(text, '/'))
    ensures '/' !in text && '-' in text ==> r == GregorianFromParts(cal, Text.Split(text, '-'))
    ensures '/' !in text && '-' !in text ==> r == None
  {
    if '/' in text then GregorianFromParts(cal, Text.Split(text, '/'))
    else if '-' in text then GregorianFromParts(cal, Text.Split(text, '-'))
    else None
  }

  /** "YYYY-MM-DD" with a four-character year reads as year, month, day. */
  lemma {:induction false} IsoOrder(cal: Calendar, year: nat, month: nat, day: nat)
    requires |Text.IntToString(year)| == 4
    ensures var text := Text.Join([Text.IntToString(year), Text.IntToString(month), Text.IntToString(day)], '-');
      ConvertGregorianToHebrew(cal, text) == cal.fromGregorian(year, month, day)
  {
    var parts := [Text.IntToString(year), Text.IntToString(month), Text.IntToString(day)];
    ThreeNumerals(parts, [year, month, day]);
    var text := Text.Join(parts, '-');
    Text.JoinThree(parts[0], parts[1], parts[2], '-');
    assert '/' !in text by {
      Text.NumeralFacts(parts[0]);
      Text.NumeralFacts(parts[1]);
      Text.NumeralFacts(parts[2]);
    }
    assert text[|parts[0]|] == '-';
    NumeralsHoldNoDash(parts, year, month, day);
    Text.SplitJoin(parts, '-');
  }

  /** "DD/MM/YYYY" with a day not four characters long reads as day, month, year. */
  lemma {:induction false} DayFirstOrder(cal: Calendar, year: int, month: int, day: int)
    requires |Text.IntToString(day)| != 4
    ensures var text := Text.Join([Text.IntToString(day), Text.IntToString(month), Text.IntToString(year)], '/');
      ConvertGregorianToHebrew(cal, text) == cal.fromGregorian(year, month, day)
  {
    var parts := [Text.IntToString(day), Text.IntToString(month), Text.IntToString(year)];
    ThreeNumerals(parts, [day, month, year]);
    var text := Text.Join(parts, '/');
    Text.JoinThree(parts[0], parts[1], parts[2], '/');
    assert text[|parts[0]|] == '/';
    Text.NumeralFacts(parts[0]);
    Text.NumeralFacts(parts[1]);
    Text.NumeralFacts(parts[2]);
    Text.SplitJoin(parts, '/');
  }

  /** Three numerals parse back to the integers they were written from. */
  lemma ThreeNumerals(parts: seq<string>, ns: seq<int>)
    requires |parts| == 3 && |ns| == 3
    requires forall i :: 0 <= i < 3 ==> parts[i] == Text.IntToString(ns[i])
    ensures Text.ParseInts(parts) == Some(ns)
    ensures forall i :: 0 <= i < 3 ==> Text.IsNumeral(parts[i])
  {
    forall i | 0 <= i < 3
      ensures Text.ParseInt(parts[i]) == Some(ns[i]) && Text.IsNumeral(parts[i])
    {
      Text.ParseIntToString(ns[i]);
      Text.IntToStringIsNumeral(ns[i]);
    }
    var r := Text.ParseInts(parts);
    assert r.Some?;
    assert r.value == ns;
  }

  /** A non-negative numeral holds no '-'; only a minus sign can put one there. */
  lemma NumeralsHoldNoDash(parts: seq<string>, year: int, month: int, day: int)
    requires parts == [Text.IntToString(year), Text.IntToString(month), Text.IntToString(day)]
    ensures year >= 0 && month >= 0 && day >= 0 ==> forall i :: 0 <= i < 3 ==> '-' !in parts[i]
  {
    if year >= 0 && month >= 0 && day >= 0 {
      Text.NatToStringValue(year);
      Text.NatToStringValue(month);
      Text.NatToStringValue(day);
    }
  }

  // ---------------------------------------------------------------------
  // format_hebrew_date_for_input and parse_mixed_date_input
  // ---------------------------------------------------------------------

  /** `format_hebrew_date_for_input(h, t)`: "day/month/year t". */
  function FormatHebrewDateForInput(cal: Calendar, h: Day, t: int): (s: string)
    ensures var datePart := Text.Join([Text.IntToString(cal.dayOfMonth(h)), Text.IntToString(cal.month(h)), Text.IntToString(cal.year(h))], '/');
      s == datePart + " " + Text.IntToString(t)
  {
    var s := Text.IntToString(cal.dayOfMonth(h)) + "/" + Text.IntToString(cal.month(h)) + "/"
      + Text.IntToString(cal.year(h)) + " " + Text.IntToString(t);
    Text.JoinThree(Text.IntToString(cal.dayOfMonth(h)), Text.IntToString(cal.month(h)), Text.IntToString(cal.year(h)), '/');
    s
  }

  /**
   * The date part after the "today" check: three '/'-separated integers
   * whose third is above 5000 and which name a Hebrew date are that date;
   * anything else, including a triple naming no Hebrew date, goes to the
   * Gregorian reader.
   */
  function HebrewOrGregorian(cal: Calendar, datePart: string): (r: Option<Day>)
    ensures var ns := Text.ParseInts(Text.Split(datePart, '/'));
      && (ns.Some? && |ns.value| == 3 && ns.value[2] > 5000 && cal.hebrewDate(ns.value[2], ns.value[1], ns.value[0]).Some?
          ==> r == cal.hebrewDate(ns.value[2], ns.value[1], ns.value[0]))
      && (!(ns.Some? && |ns.value| == 3 && ns.value[2] > 5000 && cal.hebrewDate(ns.value[2], ns.value[1], ns.value[0]).Some?)
          ==> r == ConvertGregorianToHebrew(cal, datePart))
  {
    var hebrew :=
      match Text.ParseInts(Text.Split(datePart, '/'))
      case Some(ns) =>
        if |ns| == 3 && ns[2] > 5000 then cal.hebrewDate(ns[2], ns[1], ns[0]) else None
      case None => None;
    if hebrew.Some? then hebrew else ConvertGregorianToHebrew(cal, datePart)
  }

  /**
   * `parse_mixed_date_input(text)`: at least two fields; the whole second
   * field is the time of day, which must be 0 or 1; the first field,
   * lowercased, is "today" or a date read by `HebrewOrGregorian`.
   */
  function ParseMixedDateInput(cal: Calendar, today: Day, text: string): (r: Option<(Day, int)>)
    ensures var f := Text.SplitWs(text);
      |f| < 2 ==> r == None
    ensures var f := Text.SplitWs(text);
      |f| >= 2 && (Text.ParseInt(f[1]).None? || Text.ParseInt(f[1]).value !in {0, 1}) ==> r == None
    ensures var f := Text.SplitWs(text);
      r.Some? ==> |f| >= 2 && Text.ParseInt(f[1]) == Some(r.value.1) && r.value.1 in {0, 1}
    ensures var f := Text.SplitWs(text);
      r.Some? ==>
        if Text.Lower(f[0]) == "today" then r.value.0 == today
        else HebrewOrGregorian(cal, Text.Lower(f[0])) == Some(r.value.0)
    ensures var f := Text.SplitWs(text);
      |f| >= 2 && Text.ParseInt(f[1]).Some? && Text.ParseInt(f[1]).value in {0, 1} ==>
        (r.Some? <==> Text.Lower(f[0]) == "today" || HebrewOrGregorian(cal, Text.Lower(f[0])).Some?)
  {
    Text.SplitWsOfStrip(text);
    var parts := Text.SplitWs(Text.Strip(text));
    if |parts| < 2 then None
    else
      var datePart := Text.Lower(parts[0]);
      match Text.ParseInt(parts[1])
      case None => None
      case Some(t) =>
        if t != 0 && t != 1 then None
        else if datePart == "today" then Some((today, t))
        else
          match HebrewOrGregorian(cal, datePart)
          case Some(h) => Some((h, t))
          case None => None
  }

  /** `validate_date_input(text)`: the text is accepted exactly when it parses. */
  function ValidateDateInput(cal: Calendar, today: Day, text: string): (ok: bool)
    ensures ok <==> ParseMixedDateInput(cal, today, text).Some?
  {
    ParseMixedDateInput(cal, today, text) != None
  }

  /**
   * Formatting a Hebrew date whose year is above 5000 and reading it back
   * gives the same date and time of day, when the calendar rebuilds the
   * date from its own day, month and year.
   */
  lemma {:induction false} FormatThenParse(cal: Calendar, today: Day, h: Day, t: int)
    requires t == 0 || t == 1
    requires cal.year(h) > 5000
    requires Rebuildable(cal, h)
    ensures ParseMixedDateInput(cal, today, FormatHebrewDateForInput(cal, h, t)) == Some((h, t))
    ensures ValidateDateInput(cal, today, FormatHebrewDateForInput(cal, h, t))
  {
    var ds := [cal.dayOfMonth(h), cal.month(h), cal.year(h)];
    var parts := [Text.IntToString(ds[0]), Text.IntToString(ds[1]), Text.IntToString(ds[2])];
    ThreeNumerals(parts, ds);
    var datePart := Text.Join(parts, '/');
    var tText := Text.IntToString(t);
    var s := FormatHebrewDateForInput(cal, h, t);
    assert s == datePart + " " + tText;
    Text.JoinThree(parts[0], parts[1], parts[2], '/');
    Text.NumeralFacts(parts[0]);
    Text.NumeralFacts(parts[1]);
    Text.NumeralFacts(parts[2]);
    DatePartIsPlain(parts, datePart);
    Text.IntToStringIsNumeral(t);
    Text.NumeralFacts(tText);
    Text.SplitWsTwoFields(datePart, tText);
    Text.ParseIntToString(t);
    Text.SplitJoin(parts, '/');
    assert Text.Lower(datePart) == datePart;
    assert datePart != "today" by {
      assert datePart[0] == parts[0][0];
      assert datePart[0] != 't';
    }
    assert HebrewOrGregorian(cal, datePart) == Some(h);
  }

  /** The joined numerals form one field that lowercasing leaves as it is. */
  lemma DatePartIsPlain(parts: seq<string>, datePart: string)
    requires |parts| == 3 && forall i :: 0 <= i < 3 ==> Text.IsNumeral(parts[i])
    requires datePart == parts[0] + ['/'] + parts[1] + ['/'] + parts[2]
    ensures Text.IsField(datePart)
    ensures Text.Lower(datePart) == datePart
    ensures |datePart| > 0 && (Text.IsDigit(datePart[0]) || datePart[0] == '-')
  {
    assert forall i :: 0 <= i < |datePart| ==> Text.IsDigit(datePart[i]) || datePart[i] == '-' || datePart[i] == '/' by {
      forall i | 0 <= i < |datePart|
        ensures Text.IsDigit(datePart[i]) || datePart[i] == '-' || datePart[i] == '/'
      {
        var a := |parts[0]|;
        var b := a + 1 + |parts[1]|;
        if i < a {
          assert datePart[i] == parts[0][i];
        } else if i == a || i == b {
        } else if i < b {
          assert datePart[i] == parts[1][i - a - 1];
        } else {
          assert datePart[i] == parts[2][i - b - 1];
        }
      }
    }
    assert datePart[0] == parts[0][0];
  }

  /**
   * The keyword is matched in any letter case: a first field that
   * lowercases to "today" gives the current date, whatever the calendar.
   */
  lemma {:induction false} TodayInAnyCase(cal: Calendar, today: Day, word: string, t: int)
    requires Text.IsField(word) && Text.Lower(word) == "today"
    requires t == 0 || t == 1
    ensures ParseMixedDateInput(cal, today, word + " " + Text.IntToString(t)) == Some((today, t))
  {
    Text.IntToStringIsNumeral(t);
    Text.NumeralFacts(Text.IntToString(t));
    Text.SplitWsTwoFields(word, Text.IntToString(t));
    Text.ParseIntToString(t);
  }

  /** For instance, "ToDaY" is the keyword. */
  lemma MixedCaseKeyword()
    ensures Text.IsField("ToDaY") && Text.Lower("ToDaY") == "today"
  {
    var w := "ToDaY";
    assert Text.Lower(w)[0] == 't' && Text.Lower(w)[1] == 'o' && Text.Lower(w)[2] == 'd';
    assert Text.Lower(w)[3] == 'a' && Text.Lower(w)[4] == 'y';
  }

  /**
   * A triple that looks Hebrew but names no Hebrew date is not refused: it
   * is read again as a Gregorian day/month/year.
   */
  lemma {:induction false} InvalidHebrewFallsThrough(cal: Calendar, day: nat, month: nat, year: nat)
    requires year > 5000 && |Text.IntToString(day)| != 4
    requires cal.hebrewDate(year, month, day) == None
    ensures var datePart := Text.Join([Text.IntToString(day), Text.IntToString(month), Text.IntToString(year)], '/');
      HebrewOrGregorian(cal, datePart) == cal.fromGregorian(year, month, day)
  {
    var parts := [Text.IntToString(day), Text.IntToString(month), Text.IntToString(year)];
    ThreeNumerals(parts, [day, month, year]);
    Text.NumeralFacts(parts[0]);
    Text.NumeralFacts(parts[1]);
    Text.NumeralFacts(parts[2]);
    Text.SplitJoin(parts, '/');
    DayFirstOrder(cal, year, month, day);
  }
}
