/**
 * The two line readers `convert_text_to_menstrual_period`: the one in
 * src/parsers.py and the earlier copy in parsers.py. Both read a line
 * "day/month/year qualifier" into a period with the same grammar; they
 * differ only in when they print a diagnostic after a caught exception.
 */
module Parsers {
  import opened Options
  import opened Calendar
  import opened Models
  import Text
  import ConfigDb

  /**
   * How the body of the shared `try` block ends: with a period, with an
   * explicit `return None`, or with a `ValueError` (a part that is not an
   * integer, or a year/month/day that names no date) caught by the handler.
   */
  datatype LineOutcome = Parsed(period: MenstrualPeriod) | Rejected | Failed

  /**
   * Fields `f` name Hebrew date `d` and qualifier `t`: there are at least
   * two, the first is exactly three '/'-separated integers day/month/year
   * naming `d`, and the second starts with the digit of `t`, which is 0
   * (night) or 1 (day).
   */
  predicate FieldsDenote(cal: Calendar, f: seq<string>, d: Day, t: int)
    requires forall i :: 0 <= i < |f| ==> Text.IsField(f[i])
  {
    && |f| >= 2
    && (t == 0 || t == 1)
    && Text.IsField(f[1])
    && f[1][0] == Text.DigitChar(t)
    && var parts := Text.Split(f[0], '/');
    && Text.ParseInts(parts).Some?
    && var ds := Text.ParseInts(parts).value;
    && |ds| == 3
    && cal.hebrewDate(ds[2], ds[1], ds[0]) == Some(d)
  }

  /** The line's whitespace-separated fields name date `d` and qualifier `t`. */
  predicate LineDenotes(cal: Calendar, text: string, d: Day, t: int) {
    FieldsDenote(cal, Text.SplitWs(text), d, t)
  }

  /**
   * The `try` block after `date_text.strip().split()`, on the fields it
   * produced. The fields parse exactly when they denote a date and a
   * qualifier, and the period then carries them with no cycle interval.
   * Fewer than two fields, a date that is not three parts, and a qualifier
   * digit other than 0 and 1 are rejected; a part that is not an integer,
   * a qualifier that does not start with a digit, and a triple that names
   * no date fail.
   */
  function ReadFields(cal: Calendar, f: seq<string>): (r: LineOutcome)
    requires forall i :: 0 <= i < |f| ==> Text.IsField(f[i])
    ensures r.Parsed? ==> FieldsDenote(cal, f, r.period.hebrewDate, r.period.timeOfDay)
    ensures r.Parsed? ==> r.period == NewMenstrualPeriod(cal, r.period.hebrewDate, r.period.timeOfDay, None)
    ensures forall d, t :: FieldsDenote(cal, f, d, t) ==> r == Parsed(NewMenstrualPeriod(cal, d, t, None))
    ensures |f| < 2 ==> r == Rejected
    ensures |f| >= 2 && |f[1]| > 0 ==>
      var parts := Text.Split(f[0], '/');
      && (Text.ParseInts(parts).None? ==> r == Failed)
      && (Text.ParseInts(parts).Some? && |parts| != 3 ==> r == Rejected)
      && (Text.ParseInts(parts).Some? && |parts| == 3 && !Text.IsDigit(f[1][0]) ==> r == Failed)
      && (Text.ParseInts(parts).Some? && |parts| == 3 && Text.IsDigit(f[1][0]) && f[1][0] != '0' && f[1][0] != '1'
          ==> r == Rejected)
  {
    if |f| < 2 then Rejected
    else
      assert Text.IsField(f[1]);
      match Text.ParseInts(Text.Split(f[0], '/'))
      case None => Failed
      case Some(components) =>
        if |components| != 3 then Rejected
        else
          Text.ParseSingleChar(f[1][0]);
          match Text.ParseInt([f[1][0]])
          case None => Failed
          case Some(t) =>
            if t == 0 || t == 1 then
              match cal.hebrewDate(components[2], components[1], components[0])
              case None => Failed
              case Some(d) => Parsed(NewMenstrualPeriod(cal, d, t, None))
            else Rejected
  }

  /**
   * The `try` block: `date_text.strip().split()`, then the fields are read.
   * Stripping first changes nothing, since splitting on whitespace already
   * ignores the surrounding blanks.
   */
  function ReadLine(cal: Calendar, text: string): (r: LineOutcome)
    ensures r == ReadFields(cal, Text.SplitWs(text))
  {
    Text.SplitWsOfStrip(text);
    ReadFields(cal, Text.SplitWs(Text.Strip(text)))
  }

  /** The outcome of one call: the period or `None`, and whether a diagnostic was printed. */
  datatype Reading = Reading(period: Option<MenstrualPeriod>, diagnostic: bool)

  /** The value the function returns for an outcome of the `try` block. */
  function Returned(o: LineOutcome): (r: Option<MenstrualPeriod>)
    ensures r.Some? <==> o.Parsed?
    ensures o.Parsed? ==> r.value == o.period
  {
    if o.Parsed? then Some(o.period) else None
  }

  /**
   * src/parsers.py: the handler prints only when the settings' parsing-error
   * flag is truthy; the return value is the same either way.
   */
  function ConvertTextToMenstrualPeriod(cal: Calendar, config: ConfigDb.ConfigDB, text: string): (r: Reading)
    ensures r.period.Some? <==> exists d, t :: LineDenotes(cal, text, d, t)
    ensures forall d, t :: LineDenotes(cal, text, d, t) ==> r.period == Some(NewMenstrualPeriod(cal, d, t, None))
    ensures r.period.Some? ==> LineDenotes(cal, text, r.period.value.hebrewDate, r.period.value.timeOfDay)
    ensures r.period.Some? ==> r.period.value.forbiddenDays == [] && r.period.value.cycleInterval == None
    ensures r.diagnostic <==> ReadLine(cal, text).Failed? && ConfigDb.Truthy(ConfigDb.ShouldShowParsingErrors(config))
    ensures r.diagnostic ==> r.period == None
  {
    var o := ReadLine(cal, text);
    assert o.Parsed? ==> LineDenotes(cal, text, o.period.hebrewDate, o.period.timeOfDay);
    Reading(Returned(o), o.Failed? && ConfigDb.Truthy(ConfigDb.ShouldShowParsingErrors(config)))
  }

  /** parsers.py: the handler always prints. */
  function DraftConvertTextToMenstrualPeriod(cal: Calendar, text: string): (r: Reading)
    ensures r.period.Some? <==> exists d, t :: LineDenotes(cal, text, d, t)
    ensures forall d, t :: LineDenotes(cal, text, d, t) ==> r.period == Some(NewMenstrualPeriod(cal, d, t, None))
    ensures r.period.Some? ==> LineDenotes(cal, text, r.period.value.hebrewDate, r.period.value.timeOfDay)
    ensures r.diagnostic <==> ReadLine(cal, text).Failed?
    ensures r.diagnostic ==> r.period == None
  {
    var o := ReadLine(cal, text);
    assert o.Parsed? ==> LineDenotes(cal, text, o.period.hebrewDate, o.period.timeOfDay);
    Reading(Returned(o), o.Failed?)
  }

  /**
   * The two readers return the same value for every line and every
   * setting; the newer one prints exactly when the older one does and the
   * flag is truthy, and with the default settings they print alike.
   */
  lemma ReadersAgree(cal: Calendar, config: ConfigDb.ConfigDB, text: string)
    ensures ConvertTextToMenstrualPeriod(cal, config, text).period == DraftConvertTextToMenstrualPeriod(cal, text).period
    ensures ConvertTextToMenstrualPeriod(cal, config, text).diagnostic <==>
      DraftConvertTextToMenstrualPeriod(cal, text).diagnostic && ConfigDb.Truthy(ConfigDb.ShouldShowParsingErrors(config))
    ensures config.data == ConfigDb.DefaultConfig() ==>
      ConvertTextToMenstrualPeriod(cal, config, text) == DraftConvertTextToMenstrualPeriod(cal, text)
  {
    if config.data == ConfigDb.DefaultConfig() {
      ConfigDb.DefaultInterface(config.configFile);
    }
  }

  /**
   * Of the second field only the first character is read: two lines with
   * the same date field and the same leading qualifier character read alike
   * ("1abc" is read as day).
   */
  lemma OnlyFirstQualifierCharacter(cal: Calendar, f: seq<string>, g: seq<string>)
    requires forall i :: 0 <= i < |f| ==> Text.IsField(f[i])
    requires forall i :: 0 <= i < |g| ==> Text.IsField(g[i])
    requires |f| >= 2 && |g| >= 2 && |f[1]| > 0 && |g[1]| > 0
    requires f[0] == g[0] && f[1][0] == g[1][0]
    ensures ReadFields(cal, f) == ReadFields(cal, g)
  {
  }
}
