# Tahara calculator: a verified model of the rule engine

This project is a Dafny model of the core of the Tahara Calculator. From a list of
menstrual periods, each a Hebrew date plus a qualifier (0 = night, 1 = day), the calculator
computes the days on which separation is required.

The model covers:

- the restricted-day rule engine of `calculations.py`, and its earlier draft `get_seclusions` in
  `calculator.py`. The engine lists 'עונה בינונית 30', 'וסת החודש', 'עונה בינונית 31', 'הפלגה',
  the group of unbroken intervals, 'אור זרוע' and 'כרתי ופלתי';
- the driver in `src/processor.py`. It parses lines, links consecutive periods by their inclusive
  interval, computes every period's list from the intervals before it, and indexes periods by date;
- the two line readers `convert_text_to_menstrual_period` (in `src/parsers.py` and `parsers.py`)
  and the draft reader `convert_date_to_period`;
- the mixed Hebrew/Gregorian input of `utils/date_converter.py`, with its format→parse round trip;
- the records of `models.py`;
- the dot-path settings tree of `config/config_db.py`;
- `toHebCount` of `static/calendar.js`, which writes a count in Hebrew letters.

The Hebrew calendar library is a parameter. `Calendar.Calendar` holds its functions as values:
- year, month, day and weekday of a day;
- month length;
- "which day is Hebrew y/m/d", which is `None` for an invalid triple;
- "which day is Gregorian y/m/d".

A date is an integer day ordinal. `date + n` is ordinal addition and `b - a` is the difference
of ordinals.

Python built-ins the code relies on are written out. `text.dfy` holds:
- `str.split()` over Python's whitespace characters;
- `str.split(sep)`, `str.strip()` and `str.lower()`;
- `int()` and `str()` on integers.

`calculations.dfy` holds the two list operations:
- `list.index`, which is `Calculations.FirstIndex`;
- `list.insert`, which is `Calculations.Insert`.

An exception that the code catches becomes an explicit outcome: `None`, `Failed`, or `Raised(...)`
where it escapes.

Files (one module each):
- `options.dfy` and `calendar.dfy`: shared types;
- `text.dfy`;
- `models.dfy`;
- `calculations.dfy`;
- `calculator.dfy`;
- `config_db.dfy`;
- `parsers.dfy`;
- `processor.dfy`;
- `date_converter.dfy`;
- `heb_count.dfy`.

The unbroken-interval test is modelled as the code writes it. The scan for a value `v` starts
after `list.index(v)`, which is the FIRST occurrence of `v`, not the entry's own position. So the
verdict belongs to the value: every occurrence of a kept value is listed, and a later occurrence
can be dropped because of an entry that lies between the two occurrences.

A prose reading of the rule says "an interval is kept unless a later interval is greater". That
per-position reading is modelled too, as `Calculations.StableFrom`:
- the code's verdict implies the per-position one (`KeptIsStable`);
- the two agree when no value repeats (`DistinctHistoryAgrees`);
- they differ on `[30, 35, 30]` (`FirstOccurrenceDropsNewest`).

The engine follows the code.

## Model

| member | source | states |
|---|---|---|
| Models.NewMenstrualPeriod | models.py:14-27 | A new period carries the given date, time of day and interval (None when not supplied), the weekday of its date, and an empty forbidden-day list |
| Models.AddForbiddenDay | models.py:39-41 | Appending puts the entry last, keeps every earlier entry in place and changes no other field |
| Models.PeriodDetails | models.py:43-46 | The details are [time of day, cycle interval], and writing them back through the setter leaves the period unchanged |
| Models.SetPeriodDetails | models.py:48-53 | With two or more elements, the details read back as the first two elements; with fewer the period is unchanged; date, weekday and list are never touched |
| Models.NewForbiddenDay | models.py:59-85 | A forbidden day's year, month, day and weekday are those of its own date; its restriction details are [name, time of day, month of the source period's date] |
| Calculations.FirstIndex | calculations.py:99 | `list.index(v)` is a position holding v with no v before it |
| Calculations.ScanGreaterAfter | calculations.py:99-101 | The inner loop, scanning from the newest entry back to just after the first occurrence, sets the flag iff some entry there is strictly greater |
| Calculations.ScanUnbroken | calculations.py:97-109 | The outer loop, newest to oldest, collects exactly the unbroken values in newest-first order |
| Calculations.KeptFrom | calculations.py:97-109 | A value is listed iff it occurs in the history and passes the first-occurrence test |
| Calculations.KeptFromCounts | calculations.py:97-109 | A kept value appears as many times as it occurs in the history; a broken value never appears |
| Calculations.MaximumIsKept | calculations.py:97-111 | The largest interval is never broken, since the comparison is strict, so a non-empty history yields a non-empty group |
| Calculations.EqualValuesSameVerdict | calculations.py:97-109 | Two positions holding equal values get the same verdict; a kept value is listed once per occurrence |
| Calculations.KeptIsStable | calculations.py:97-102 | A value the code keeps has no strictly greater interval after any of its positions |
| Calculations.DistinctHistoryAgrees | calculations.py:97-109 | Without repeated values, the code's verdicts equal the per-position reading "no later interval is greater" |
| Calculations.UnbrokenExample | calculations.py:97-109 | [30, 31, 29] gives the labels 29 then 31; 30 is broken by the later 31 |
| Calculations.FirstOccurrenceDropsNewest | calculations.py:99 | [30, 35, 30] keeps only 35, while the per-position reading keeps 30 and 35 |
| Calculations.PatternDays | calculations.py:103-109 | Each kept value v gives a day labelled str(v) on D + v - 1 with the period's time of day, in the same order. Each is the models.py forbidden day: the year, month, day and weekday of its own date, and details [label, time, month of D] |
| Calculations.UnbrokenPatterns | calculations.py:81-111 | None iff there are fewer than two intervals; otherwise one day per kept value, in newest-first order, and never an empty list. Each day passes the first-occurrence test and is the models.py forbidden day for its value |
| Calculations.Insert | calculations.py:136-137 | `list.insert(i, x)` puts x at i and shifts the tail right by one; past the end it appends |
| Calculations.AddTimeBasedRestrictions | calculations.py:114-145 | Night: 'אור זרוע' (the day before the 30th day, for the day) goes first and 'כרתי ופלתי' (the 30th day, for the day) goes to index 2. Day: only 'אור זרוע' (the 30th day, for the night) goes first. The old entries keep their relative order. Each inserted day is the models.py forbidden day, so its calendar fields, weekday and details are those of its own date and name |
| Calculations.Ona30 | calculations.py:31-36 | 'עונה בינונית 30' is the models.py forbidden day on D + 29 with the period's time of day, with that date's calendar fields and weekday |
| Calculations.StandardEntries | calculations.py:24-69 | The list before the insertions, in order: the 30th day, the same day next month (D + month length), and the 31st day; then 'הפלגה' on D + I - 1 only for a truthy interval; then the unbroken group exactly when there are at least two intervals. Every single entry is the models.py forbidden day for its name, date and time |
| Calculations.CalculateForbiddenDays | calculations.py:13-78 | The final list, position by position, for night and for day. Its length is 3 + [interval truthy] + [at least two intervals] + (2 at night, else 1). The group is last when present, and every entry is single otherwise. Each single entry equals the models.py forbidden day for its name, date and time, so its year, month, day, weekday and details are fixed too |
| Calculator.NewPeriod | calculator.py:6-11 | A draft period records its date, ona and haflaga, the weekday of its date, and an empty list |
| Calculator.AddSeclusion | calculator.py:21-22 | Appending puts the entry last and changes nothing else |
| Calculator.Details | calculator.py:24-27 | The draft's details [ona, haflaga] are the models.py period details of the same period |
| Calculator.NewSeclusion | calculator.py:34-44 | A seclusion records its period's date, its name, date and ona; year, month, day and weekday are those of its own date; its details are [name, ona, month of the period's date] |
| Calculator.ConvertDateToPeriod | calculator.py:76-84 | One field or none returns None. With two or more fields: a non-integer date part or a non-digit first qualifier character raises ValueError; a qualifier in {0,1} with other than three parts raises TypeError; three parts naming no date raise ValueError; three parts naming a date return the period on the reversed d/m/y with that ona and no haflaga. An integer qualifier outside {0,1} raises UnboundLocalError at the unbound `period` |
| Calculator.ConvertAgreesWithReader | calculator.py:76-84 | The draft reader returns a period exactly on the lines src/parsers.py parses, and it is the same period |
| Calculator.DraftStandardListAgrees | calculator.py:98-117 | The draft's list before insertions equals the engine's: it appends the group whenever there are at least two intervals, and that group is never empty |
| Calculator.GetSeclusions | calculator.py:92-128 | `get_seclusions` yields exactly the list `calculate_forbidden_days` yields for the same period and intervals |
| ConfigDb.SetIn | config/config_db.py:115-125 | The walk succeeds iff every intermediate is an object or absent; the top level gains the first key and keeps every other key's value |
| ConfigDb.Set | config/config_db.py:107-125 | `set` succeeds exactly when no intermediate value is a non-object; the settings file name is untouched |
| ConfigDb.SetInThenLookup | config/config_db.py:97-125 | Walking a path just assigned returns the assigned value |
| ConfigDb.SetInFrame | config/config_db.py:119-125 | A path that parts ways with the assigned one reads as it did before |
| ConfigDb.SetThenGet | config/config_db.py:86-125 | After a successful `set(p, v)`, `get(p)` is v, and every path diverging from p reads as before |
| ConfigDb.UpdateConfig | config/config_db.py:163-171 | An empty update changes nothing; updates never change the file name |
| ConfigDb.UpdateConfigAppend | config/config_db.py:170-171 | Updating with a + b is updating with a, then with b when a went through |
| ConfigDb.UpdateConfigSingle | config/config_db.py:170-171 | One pair is exactly one `set` |
| ConfigDb.ResetToDefaults | config/config_db.py:159-161 | After a reset the tree is the default tree |
| ConfigDb.GetAllConfig | config/config_db.py:173-175 | The copy has the same top-level keys with the same values |
| ConfigDb.Lookup | config/config_db.py:97-105 | The walk returns the value at the key path when every step is an object holding the next key, and the default otherwise |
| ConfigDb.Get | config/config_db.py:86-105 | `get(p, d)` is the value at the dot-separated path p of the settings, or d when a key is missing or a step is not an object |
| ConfigDb.ValueAtAppend | config/config_db.py:101-103 | Walking a + b is walking a, then walking b from the object reached |
| ConfigDb.ThroughScalarIsDefault | config/config_db.py:101-105 | A path that continues past a non-object value gives the default (Python's TypeError) |
| ConfigDb.MissingKeyIsDefault | config/config_db.py:101-105 | A path through a missing key gives the default (Python's KeyError), whatever follows |
| ConfigDb.DefaultConfig | config/config_db.py:38-66 | The defaults have exactly the sections files, output, calculations, interface and hebrew_calendar; each is a non-empty object; every calculation switch is True |
| ConfigDb.GetTwoKeys | config/config_db.py:97-105 | Reading "section.key" gives the key's value inside the section when both exist and the section is an object, otherwise the fallback |
| ConfigDb.GetDefaultInputFile | config/config_db.py:127-129 | files.default_input_file, or "dates.txt" when missing |
| ConfigDb.GetDefaultOutputFile | config/config_db.py:131-133 | files.default_output_file, or "tahara_results.txt" when missing |
| ConfigDb.GetSampleFile | config/config_db.py:135-137 | files.sample_file, or "sample_dates.txt" when missing |
| ConfigDb.ShouldAutoExport | config/config_db.py:139-141 | output.auto_export, or False when missing |
| ConfigDb.GetMaxRetryAttempts | config/config_db.py:143-145 | interface.max_file_retry_attempts, or 3 when missing |
| ConfigDb.GetDateSeparator | config/config_db.py:147-149 | output.date_separator, or 25 dashes when missing |
| ConfigDb.ShouldShowParsingErrors | config/config_db.py:151-153 | interface.show_parsing_errors, or True when missing |
| ConfigDb.GetEncoding | config/config_db.py:155-157 | output.encoding, or "utf-8" when missing |
| ConfigDb.DefaultFiles | config/config_db.py:40-45 | On the default tree the three file getters give dates.txt, tahara_results.txt and sample_dates.txt |
| ConfigDb.DefaultOutput | config/config_db.py:46-52 | On the default tree auto export is False, the separator is 25 dashes and the encoding is utf-8 |
| ConfigDb.DefaultInterface | config/config_db.py:60-64 | On the default tree the retry limit is 3 and parsing errors are shown |
| Parsers.ReadFields | src/parsers.py:31-46 | The fields parse iff they denote a date and a qualifier 0/1; the period then has no interval. Fewer than two fields, a date that is not three parts, or a digit qualifier other than 0/1 returns None. A non-integer part, a non-digit qualifier or an invalid date takes the error path |
| Parsers.ReadLine | src/parsers.py:31 | Stripping before splitting changes nothing: the line reads as its whitespace-separated fields |
| Parsers.ConvertTextToMenstrualPeriod | src/parsers.py:20-51 | A period is returned iff the line denotes a Hebrew date and a qualifier 0/1; it is then the fresh period on exactly that date and qualifier, with no interval. A diagnostic is printed iff the error path was taken and the settings flag is truthy, and then the result is None |
| Parsers.DraftConvertTextToMenstrualPeriod | parsers.py:11-40 | Same grammar and result: a period exactly when the line denotes a date and a qualifier 0/1, and then the period on that date and qualifier; the diagnostic is printed exactly on the error path |
| Parsers.ReadersAgree | parsers.py:21-40 | The two readers return the same value on every line. The newer prints only when the older does and the flag is set; on default settings they behave identically |
| Parsers.OnlyFirstQualifierCharacter | src/parsers.py:39 | Lines with the same date field and the same first qualifier character read alike, so "1abc" reads as day |
| Processor.Keep | src/processor.py:30-40 | Filtering never yields more periods than lines |
| Processor.KeepConcat | src/processor.py:32-36 | Lines are read independently: keeping over a + b is keeping over a followed by keeping over b |
| Processor.KeepOne | src/processor.py:34-36 | One line yields its period when the reader returns one, and nothing otherwise (`ProcessPeriodsData` is `Keep` with the src/parsers.py reader) |
| Processor.KeepLoop | src/processor.py:30-40 | The loop's result is the filtered sequence |
| Processor.ProcessPeriodsData | src/processor.py:20-40 | No more periods than lines |
| Processor.ProcessConcat | src/processor.py:32-36 | Parsed periods keep input order: processing a + b is processing a, then b |
| Processor.ProcessPeriodsDataLoop | src/processor.py:20-40 | The loop's result is `ProcessPeriodsData` |
| Processor.CycleIntervals | src/processor.py:54-61 | n periods give n - 1 intervals; 0 or 1 give none |
| Processor.CycleIntervalAt | src/processor.py:55-58 | Interval k is date[k+1] - date[k] + 1 |
| Processor.IntervalsSpanDates | src/processor.py:54-61 | The intervals add up to last date - first date + (n - 1), because both ends are counted |
| Processor.IntervalsPositive | src/processor.py:55-58 | With non-decreasing dates every interval is at least 1 |
| Processor.CalculateCycleIntervals | src/processor.py:43-61 | The first period is untouched; period k+1 gets interval k, its inclusive distance to period k; the returned list is those intervals |
| Processor.HistoryFor | src/processor.py:73-79 | Period i's history is the first i intervals when there are any intervals (a slice stops at the end), and empty otherwise |
| Processor.CalculateAllForbiddenDays | src/processor.py:64-79 | Every period's list becomes the engine's result for it with its history; nothing else about the periods changes |
| Processor.Pipeline | cli/cli.py:93-97 | One result per period. Period i comes out with its inclusive distance to period i - 1 as its interval (the first is unchanged). Its list is the engine's result for that period and the first i intervals |
| Processor.HistoryEndsWithOwnInterval | src/processor.py:72-77 | Period i receives exactly i intervals, the last of which is its own interval, each the inclusive distance between neighbours |
| Processor.PipelineIsCausal | src/processor.py:54-79 | A period's result depends only on it and the periods before it: a prefix computes the same results for its periods |
| Processor.TwoDayPeriodsExample | src/processor.py:54-79 | Two day-time periods 28 days apart give the second a 29-day interval, 'הפלגה' at its date + 28, five entries and no group |
| Processor.CreatePeriodsIndex | src/processor.py:82-92 | The keys are exactly the dates that occur, each mapped to a period with that date |
| Processor.IndexOrder | src/processor.py:82-92 | The index's iteration order: each date that occurs comes once, in the order of its first occurrence in the periods (a dict keeps a key where it was first inserted) |
| Processor.IndexKeepsLast | src/processor.py:92 | A date maps to the last period carrying it |
| DateConverter.GregorianFromParts | utils/date_converter.py:40-53 | Not three parts gives None. A 4-character first part is read year-month-day, anything else day-month-year, and the date is the Gregorian conversion of those integers |
| DateConverter.ConvertGregorianToHebrew | utils/date_converter.py:21-57 | '/' takes precedence over '-'; with neither the result is None |
| DateConverter.IsoOrder | utils/date_converter.py:44-45 | "YYYY-MM-DD" of non-negative numbers with a 4-digit year is read as year, month, day |
| DateConverter.DayFirstOrder | utils/date_converter.py:46-47 | "D/M/Y" whose first part is not 4 characters is read as day, month, year |
| DateConverter.FormatHebrewDateForInput | utils/date_converter.py:60-71 | The text is "day/month/year t" of the date's own fields |
| DateConverter.HebrewOrGregorian | utils/date_converter.py:101-115 | Three '/' integers with the third above 5000 that name a Hebrew date are that date; anything else, including an invalid triple, goes to the Gregorian reader |
| DateConverter.ParseMixedDateInput | utils/date_converter.py:74-121 | Fewer than two fields, or a second field that is not the integer 0 or 1, gives None. 'today' in any case gives today. A success returns the qualifier and a date the Hebrew or Gregorian reading gives |
| DateConverter.ValidateDateInput | utils/date_converter.py:154-165 | Valid iff the mixed parser returns a result |
| DateConverter.FormatThenParse | utils/date_converter.py:71-108 | Formatting a date whose year is above 5000 with qualifier 0 or 1 and parsing it back gives the same date and qualifier, and the text validates |
| DateConverter.TodayInAnyCase | utils/date_converter.py:89-99 | Any capitalisation of "today" followed by 0 or 1 gives today's date and that qualifier |
| DateConverter.MixedCaseKeyword | utils/date_converter.py:89 | "ToDaY" lowercases to the keyword |
| DateConverter.InvalidHebrewFallsThrough | utils/date_converter.py:102-115 | A triple above 5000 that names no Hebrew date is read as Gregorian day/month/year |
| Text.SplitWs | src/parsers.py:31 | `split()` yields non-empty fields with no whitespace |
| Text.Strip | src/parsers.py:31 | `strip()` gives a stretch of the text that neither starts nor ends with whitespace, with only whitespace around it |
| Text.SplitWsOfStrip | src/parsers.py:31 | Stripping before `split()` does not change the fields |
| Text.SplitWsTwoFields | utils/date_converter.py:71 | Two fields joined by one space split back into those two fields |
| Text.Split | src/parsers.py:35 | `split(sep)` yields at least one part, and no part contains the separator |
| Text.SplitJoin | utils/date_converter.py:71 | Splitting parts joined by a separator they do not contain gives the parts back |
| Text.JoinSplit | utils/date_converter.py:34 | Joining the parts of a split restores the text |
| Text.Lower | utils/date_converter.py:89 | `lower()` keeps the length and lowercases each character |
| Text.ParseInts | src/parsers.py:35 | The list comprehension of `int()` succeeds iff every part parses, with each value the part's own |
| Text.ParseInt | src/parsers.py:35 | `int(s)` succeeds iff s is a digit group with an optional sign; the value is negative only after '-', an unsigned group gives its decimal value, and a signed one gives its digits' value with that sign, so "+5" is 5 and "-12" is -12 |
| Text.IntToString | calculations.py:105 | `str(i)` is non-empty, starts with '-' exactly when i is negative, and is digits otherwise |
| Text.ParseSingleChar | src/parsers.py:39 | `int()` of one character is its digit value for a digit and fails otherwise |
| Text.ParseIntToString | utils/date_converter.py:71 | `int(str(i)) == i` |
| Text.NatToStringValue | calculations.py:105 | `str(n)` of a natural is a non-empty digit string whose value is n |
| HebCount.LetterAt | static/calendar.js:244-246 | A row letter is present iff its index is in range; index -1 means no letter |
| HebCount.Taws | static/calendar.js:243 | The thousands part is floor(n/400) tokens 'ת' |
| HebCount.InsertBeforeLast | static/calendar.js:252 | The gershayim goes just before the last token, which stays last |
| HebCount.RestValue | static/calendar.js:244-250 | The tokens after the thousands add up to n mod 400 |
| HebCount.TokensValueIsCount | static/calendar.js:243-250 | The tokens' letter values add up to n |
| HebCount.GershayimValue | static/calendar.js:251-253 | Inserting the gershayim changes no value |
| HebCount.ToHebCount | static/calendar.js:242-255 | The rendering uses only 'ת', the hundreds, tens and ones letters and the gershayim; its value is stated by ToHebCountValue |
| HebCount.ToHebCountValue | static/calendar.js:242-255 | The letters of the result add up to n: the rendering is a faithful gematria |
| HebCount.Decompose | static/calendar.js:243-254 | The result is the thousands letters followed by the joined tokens after them, the gershayim among those |
| HebCount.SameRemainder | static/calendar.js:244-247 | Hundreds, tens, ones and the 15/16 special case depend on n mod 400 only |
| HebCount.TawPrefix | static/calendar.js:243 | The result is floor(n/400) letters 'ת' followed by the rendering of n mod 400 |
| HebCount.AddFourHundred | static/calendar.js:243 | Adding 400 adds one 'ת' in front and changes nothing else |
| HebCount.GershayimWhenHundreds | static/calendar.js:244-253 | A gershayim appears iff n mod 400 is at least 100 |
| HebCount.Example785 | static/calendar.js:242-255 | 785 renders as תשפ"ה |
| HebCount.WholeHundreds | static/calendar.js:251-253 | 100, 200 and 300 render as "ק, "ר and "ש: the gershayim goes before the only token |
| HebCount.Examples15And16 | static/calendar.js:247-250 | 15 and 16 render as טו and טז, not as tens plus ones |
| HebCount.Example115 | static/calendar.js:247-253 | 115 renders as ק"טו: the gershayim goes before the whole special token |
| HebCount.OneToNine | static/calendar.js:246 | 1 to 9 are the single letters א to ט |
| HebCount.ExampleZero | static/calendar.js:242-255 | 0 renders as the empty text |

## Left out

- The Hebrew calendar library is a parameter (`Calendar.Calendar`). Month arithmetic, date
  validity, weekdays and the Gregorian conversion are its functions. The model does not impose
  the 29-or-30-day month length, because no property here depends on it.
- The clock: `datetime.now()` behind 'today', `get_today_hebrew_date` and `format_today_for_input`.
  Today's date is a parameter of `DateConverter.ParseMixedDateInput`.
- The text of printed diagnostics, in the parsers and the Gregorian reader. The parsers record
  only whether a diagnostic is printed; the Gregorian reader's print is not modelled.
- DateConverter.ParseMixedDateInput: the handler of `ValueError` and `IndexError` prints a
  diagnostic before returning `None`. The model returns the `None` and does not record the print.
- File I/O and JSON: `_load_config`, `save_config`, `print_config`, `read_periods_list_file`,
  `export_results`. Also the module-level `get_config` singleton: the settings are an explicit
  argument.
- Not part of this model: the CLI, the formatters, the Flask app, the rest of `static/calendar.js`,
  `get_date_format_help` (constant text), `calculator.py` `main` (it uses undefined names), and
  `get_month_len` (the calendar's month length stands for it).
- src/models.py and src/calculations.py are not part of this model. models.py and
  calculations.py at the repository root stand for them.
- Calculator.Details: the draft's `details` setter stores its argument in `_haflaga`, which
  nothing reads. Only the getter is modelled.
- Models.SetPeriodDetails: requires the first of two or more elements to be an integer. Python
  would store any object as the time of day.
- ConfigDb values are null, booleans, integers, strings and nested objects. JSON lists and floats
  are not modelled. `get_all_config` returns a shallow copy, whose aliasing of nested objects has
  no counterpart in immutable values. `set` through a non-object intermediate raises in Python;
  here it is `None` with the settings unchanged.
- Text.ParseInt: Python's `int()` also accepts surrounding whitespace and non-ASCII digits. The
  model accepts an optional sign, ASCII digits and single underscores between digits. Fields never
  contain whitespace, and the inputs in question are ASCII dates.
- Text.Lower: ASCII letters only; other characters are left as they are.
- HebCount.ToHebCount: defined for non-negative integers. Its callers pass a day of the month or
  a year modulo 1000.
- Processor.ProcessPeriodsData: does not restate the parser's contract for each kept period.
  `KeepOne` and `ProcessConcat` reduce it to `Parsers.ConvertTextToMenstrualPeriod`, whose
  contract gives each kept period's date and qualifier as the ones its line denotes. The `NameError` handler is left out, because the parsers
  never raise it.
- Calculator.ConvertDateToPeriod: a date of four '/' parts passes a fourth argument to the
  library's `HebrewDate`, whose optional parameter is not part of the calendar model. The model
  raises `TypeError` for every part count other than three.
- Processor.CreatePeriodsIndex: the map itself carries no order. The order in which the dict is
  iterated is stated separately by `Processor.IndexOrder`.
- DateConverter.GregorianFromParts: the calendar's Gregorian conversion returns `None` for
  every triple it rejects. In Python an integer too large for `datetime` raises `OverflowError`,
  which neither handler catches; that escape is not modelled.
- The "calculations.include_*" switches of the default settings are not read by the engine in
  the source, so they have no effect here either.
