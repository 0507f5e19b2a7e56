/**
 * src/processor.py: the driver that turns input lines into periods, links
 * consecutive periods by their cycle intervals, runs the rule engine on
 * each period with the intervals seen so far, and indexes the periods by
 * date.
 *
 * The source mutates the period objects in place; here each step returns
 * the updated sequence of periods instead.
 */
module Processor {
  import opened Options
  import opened Calendar
  import opened Models
  import Calculations
  import Parsers
  import ConfigDb

  // ---------------------------------------------------------------------
  // process_periods_data
  // ---------------------------------------------------------------------

  /** The periods `read` yields for `lines`, in order; a line it reads as `None` adds nothing. */
  function Keep(read: string -> Option<MenstrualPeriod>, lines: seq<string>): (r: seq<MenstrualPeriod>)
    ensures |r| <= |lines|
    decreases |lines|
  {
    if |lines| == 0 then []
    else
      var before := Keep(read, lines[..|lines| - 1]);
      match read(lines[|lines| - 1])
      case Some(p) => before + [p]
      case None => before
  }

  /** Keeping is a filter: keeping from `a + b` is keeping from `a`, then from `b`. */
  lemma {:induction false} KeepConcat(read: string -> Option<MenstrualPeriod>, a: seq<string>, b: seq<string>)
    ensures Keep(read, a + b) == Keep(read, a) + Keep(read, b)
    decreases |b|
  {
    if |b| == 0 {
      assert a + b == a;
    } else {
      var ab := a + b;
      assert ab[..|ab| - 1] == a + b[..|b| - 1];
      assert ab[|ab| - 1] == b[|b| - 1];
      KeepConcat(read, a, b[..|b| - 1]);
    }
  }

  /** Keeping from a single line is what `read` makes of it. */
  lemma KeepOne(read: string -> Option<MenstrualPeriod>, line: string)
    ensures Keep(read, [line]) == match read(line) case Some(p) => [p] case None => []
  {
    assert [line][..0] == [];
  }

  /** The loop that builds the list, appending each period `read` yields. */
  method KeepLoop(read: string -> Option<MenstrualPeriod>, lines: seq<string>) returns (kept: seq<MenstrualPeriod>)
    ensures kept == Keep(read, lines)
  {
    kept := [];
    var i := 0;
    while i < |lines|
      invariant 0 <= i <= |lines|
      invariant kept == Keep(read, lines[..i])
    {
      var period := read(lines[i]);
      if period.Some? {
        kept := kept + [period.value];
      }
      assert lines[..i + 1][..i] == lines[..i];
      i := i + 1;
    }
    assert lines[..i] == lines;
  }

  /** The line reader of src/parsers.py, with the settings it consults. */
  function Reader(cal: Calendar, config: ConfigDb.ConfigDB): string -> Option<MenstrualPeriod> {
    line => Parsers.ConvertTextToMenstrualPeriod(cal, config, line).period
  }

  /**
   * `process_periods_data(lines)`: each line goes through the line reader
   * of src/parsers.py; the periods it yields are kept in input order and
   * the lines it turns down are dropped. (A period object is always truthy
   * in Python, so every period read is kept.)
   */
  function ProcessPeriodsData(cal: Calendar, config: ConfigDb.ConfigDB, lines: seq<string>): (r: seq<MenstrualPeriod>)
    ensures |r| <= |lines|
  {
    Keep(Reader(cal, config), lines)
  }

  /**
   * Processing `a + b` is processing `a`, then `b`, and concatenating: the
   * lines are read independently of each other.
   */
  lemma ProcessConcat(cal: Calendar, config: ConfigDb.ConfigDB, a: seq<string>, b: seq<string>)
    ensures ProcessPeriodsData(cal, config, a + b) == ProcessPeriodsData(cal, config, a) + ProcessPeriodsData(cal, config, b)
  {
    KeepConcat(Reader(cal, config), a, b);
  }

  /** The loop of `process_periods_data`. */
  method ProcessPeriodsDataLoop(cal: Calendar, config: ConfigDb.ConfigDB, lines: seq<string>)
    returns (periods: seq<MenstrualPeriod>)
    ensures periods == ProcessPeriodsData(cal, config, lines)
  {
    periods := KeepLoop(Reader(cal, config), lines);
  }

  // ---------------------------------------------------------------------
  // calculate_cycle_intervals
  // ---------------------------------------------------------------------

  /**
   * The intervals the loop computes: for each period after the first, its
   * date minus the previous period's date, plus one (both days counted).
   */
  function CycleIntervals(ps: seq<MenstrualPeriod>): (r: seq<int>)
    ensures |r| == if |ps| == 0 then 0 else |ps| - 1
    decreases |ps|
  {
    if |ps| < 2 then []
    else CycleIntervals(ps[..|ps| - 1]) + [ps[|ps| - 1].hebrewDate - ps[|ps| - 2].hebrewDate + 1]
  }

  /** Interval `k` links period `k` to period `k + 1`. */
  lemma {:induction false} CycleIntervalAt(ps: seq<MenstrualPeriod>, k: nat)
    requires k + 1 < |ps|
    ensures CycleIntervals(ps)[k] == ps[k + 1].hebrewDate - ps[k].hebrewDate + 1
    decreases |ps|
  {
    if k + 2 < |ps| {
      CycleIntervalAt(ps[..|ps| - 1], k);
    }
  }

  lemma CycleIntervalsAll(ps: seq<MenstrualPeriod>)
    ensures forall k :: 0 <= k < |CycleIntervals(ps)| ==>
      CycleIntervals(ps)[k] == ps[k + 1].hebrewDate - ps[k].hebrewDate + 1
  {
    forall k | 0 <= k < |CycleIntervals(ps)| {
      CycleIntervalAt(ps, k);
    }
  }

  function Sum(xs: seq<int>): int {
    if |xs| == 0 then 0 else Sum(xs[..|xs| - 1]) + xs[|xs| - 1]
  }

  /**
   * The intervals add up to the span of the dates: each counts both its
   * end days, so together they cover the span from the first date to the
   * last plus one day per interval.
   */
  lemma {:induction false} IntervalsSpanDates(ps: seq<MenstrualPeriod>)
    requires |ps| >= 1
    ensures Sum(CycleIntervals(ps)) == ps[|ps| - 1].hebrewDate - ps[0].hebrewDate + (|ps| - 1)
    decreases |ps|
  {
    if |ps| >= 2 {
      IntervalsSpanDates(ps[..|ps| - 1]);
    }
  }

  /** Dates in non-decreasing order give intervals of at least one day. */
  lemma IntervalsPositive(ps: seq<MenstrualPeriod>)
    requires forall k :: 0 <= k < |ps| - 1 ==> ps[k].hebrewDate <= ps[k + 1].hebrewDate
    ensures forall k :: 0 <= k < |CycleIntervals(ps)| ==> CycleIntervals(ps)[k] >= 1
  {
    CycleIntervalsAll(ps);
  }

  /**
   * `calculate_cycle_intervals(periods)`: stores on every period after the
   * first the interval from its predecessor, leaves the first period as it
   * was, and returns the stored intervals in order.
   */
  function CalculateCycleIntervals(ps: seq<MenstrualPeriod>): (r: (seq<MenstrualPeriod>, seq<int>))
    ensures |r.0| == |ps|
    ensures |ps| > 0 ==> r.0[0] == ps[0]
    ensures forall k :: 1 <= k < |ps| ==>
      r.0[k] == ps[k].(cycleInterval := Some(ps[k].hebrewDate - ps[k - 1].hebrewDate + 1))
    ensures r.1 == CycleIntervals(ps)
    ensures |r.1| == if |ps| == 0 then 0 else |ps| - 1
    ensures forall k :: 0 <= k < |r.1| ==> r.0[k + 1].cycleInterval == Some(r.1[k])
  {
    var intervals := CycleIntervals(ps);
    var updated := seq(|ps|, i requires 0 <= i < |ps| =>
      if i == 0 then ps[0] else ps[i].(cycleInterval := Some(intervals[i - 1])));
    CycleIntervalsAll(ps);
    (updated, intervals)
  }

  // ---------------------------------------------------------------------
  // calculate_all_forbidden_days
  // ---------------------------------------------------------------------

  /**
   * The history the engine gets for period `i`: `intervals[:i]` when the
   * interval list is non-empty (Python's slice stops at the end of the
   * list), and no history at all otherwise.
   */
  function HistoryFor(intervals: seq<int>, i: nat): (h: seq<int>)
    ensures |intervals| > 0 ==> h == intervals[..if i <= |intervals| then i else |intervals|]
    ensures |intervals| == 0 ==> h == []
  {
    if |intervals| > 0 then intervals[..if i <= |intervals| then i else |intervals|] else []
  }

  /**
   * `calculate_all_forbidden_days(periods, intervals)`: every period's
   * list becomes what the engine computes for it with its history; nothing
   * else about the periods changes.
   */
  function CalculateAllForbiddenDays(cal: Calendar, ps: seq<MenstrualPeriod>, intervals: seq<int>): (r: seq<MenstrualPeriod>)
    ensures |r| == |ps|
    ensures forall i :: 0 <= i < |ps| ==> r[i].(forbiddenDays := ps[i].forbiddenDays) == ps[i]
    ensures forall i :: 0 <= i < |ps| ==>
      r[i].forbiddenDays == Calculations.CalculateForbiddenDays(cal, ps[i], HistoryFor(intervals, i))
  {
    seq(|ps|, i requires 0 <= i < |ps| =>
      ps[i].(forbiddenDays := Calculations.CalculateForbiddenDays(cal, ps[i], HistoryFor(intervals, i))))
  }

  /**
   * Period `i` with its interval stored: the inclusive distance to period
   * `i - 1`; the first period is left as it is.
   */
  function Linked(ps: seq<MenstrualPeriod>, i: nat): MenstrualPeriod
    requires i < |ps|
  {
    if i == 0 then ps[0] else ps[i].(cycleInterval := Some(ps[i].hebrewDate - ps[i - 1].hebrewDate + 1))
  }

  /**
   * The command-line pipeline after reading: intervals, then every
   * period's forbidden days. Period `i` comes out with its inclusive
   * distance to period `i - 1` as its interval (the first keeps its own),
   * and with the engine's list for that period and the first `i`
   * intervals.
   */
  function Pipeline(cal: Calendar, ps: seq<MenstrualPeriod>): (r: seq<MenstrualPeriod>)
    ensures |r| == |ps|
    ensures forall i :: 0 <= i < |ps| ==>
      r[i] == Linked(ps, i).(forbiddenDays := Calculations.CalculateForbiddenDays(cal, Linked(ps, i), CycleIntervals(ps)[..i]))
  {
    var linked := CalculateCycleIntervals(ps);
    assert forall i :: 0 <= i < |ps| ==> linked.0[i] == Linked(ps, i);
    CalculateAllForbiddenDays(cal, linked.0, linked.1)
  }

  /**
   * With the intervals from `calculate_cycle_intervals`, period `i` is given
   * exactly `i` intervals, the last of which is its own; the first period
   * and a lone period get none.
   */
  lemma HistoryEndsWithOwnInterval(ps: seq<MenstrualPeriod>, i: nat)
    requires i < |ps|
    ensures var linked := CalculateCycleIntervals(ps);
      var h := HistoryFor(linked.1, i);
      && |h| == i
      && (i > 0 ==> linked.0[i].cycleInterval == Some(h[i - 1]))
      && (forall k :: 0 <= k < i ==> h[k] == ps[k + 1].hebrewDate - ps[k].hebrewDate + 1)
  {
    var linked := CalculateCycleIntervals(ps);
    forall k | 0 <= k < i
      ensures HistoryFor(linked.1, i)[k] == ps[k + 1].hebrewDate - ps[k].hebrewDate + 1
    {
      CycleIntervalAt(ps, k);
    }
  }

  /**
   * Period `i`'s forbidden days depend only on the periods up to and
   * including it: later input does not change them.
   */
  lemma {:induction false} PipelineIsCausal(cal: Calendar, ps: seq<MenstrualPeriod>, j: nat, i: nat)
    requires i < j <= |ps|
    ensures Pipeline(cal, ps[..j])[i] == Pipeline(cal, ps)[i]
  {
    var qs := ps[..j];
    var a := CalculateCycleIntervals(qs);
    var b := CalculateCycleIntervals(ps);
    assert qs[i] == ps[i];
    assert i > 0 ==> qs[i - 1] == ps[i - 1];
    assert a.0[i] == b.0[i];
    HistoryEndsWithOwnInterval(qs, i);
    HistoryEndsWithOwnInterval(ps, i);
    var ha := HistoryFor(a.1, i);
    var hb := HistoryFor(b.1, i);
    assert |ha| == |hb|;
    forall k | 0 <= k < i
      ensures ha[k] == hb[k]
    {
      assert qs[k] == ps[k] && qs[k + 1] == ps[k + 1];
    }
    assert ha == hb;
  }

  /**
   * Two day-time periods 28 days apart (29 days counting both ends): the
   * second gets its personal interval of 29 at its date plus 28, and no
   * group of unbroken intervals, since one interval is too few.
   */
  lemma TwoDayPeriodsExample(cal: Calendar, first: MenstrualPeriod, second: MenstrualPeriod)
    requires first.timeOfDay == 1 && second.timeOfDay == 1
    requires second.hebrewDate == first.hebrewDate + 28
    ensures var r := Pipeline(cal, [first, second]);
      && r[1].cycleInterval == Some(29)
      && Calculations.IsDay(cal, r[1].forbiddenDays[4], second.hebrewDate, Calculations.HaflagaName, second.hebrewDate + 28, 1)
      && |r[1].forbiddenDays| == 5
      && (forall k :: 0 <= k < |r[1].forbiddenDays| ==> r[1].forbiddenDays[k].Single?)
  {
    var ps := [first, second];
    var q := second.(cycleInterval := Some(29));
    var h := CycleIntervals(ps)[..1];
    assert |h| == 1;
    assert Pipeline(cal, ps)[1] == q.(forbiddenDays := Calculations.CalculateForbiddenDays(cal, q, h));
  }

  // ---------------------------------------------------------------------
  // create_periods_index
  // ---------------------------------------------------------------------

  /**
   * `create_periods_index(periods)`: the periods by date. The keys are the
   * dates that occur; where two periods share a date, the later one is
   * kept.
   */
  function CreatePeriodsIndex(ps: seq<MenstrualPeriod>): (r: map<Day, MenstrualPeriod>)
    ensures r.Keys == set i | 0 <= i < |ps| :: ps[i].hebrewDate
    ensures forall d :: d in r ==> r[d] in ps && r[d].hebrewDate == d
    decreases |ps|
  {
    if |ps| == 0 then map[]
    else
      var before := CreatePeriodsIndex(ps[..|ps| - 1]);
      assert forall p :: p in ps[..|ps| - 1] ==> p in ps;
      before[ps[|ps| - 1].hebrewDate := ps[|ps| - 1]]
  }

  /** Date `a` occurs in `ps` before the first occurrence of date `b`. */
  predicate OccursBefore(ps: seq<MenstrualPeriod>, a: Day, b: Day) {
    exists k :: 0 <= k < |ps| && ps[k].hebrewDate == a && forall m :: 0 <= m <= k ==> ps[m].hebrewDate != b
  }

  /**
   * The iteration order of the dict `create_periods_index` builds: a key
   * keeps the place of its first insertion, so the dates come once each,
   * in the order of their first occurrence.
   */
  function IndexOrder(ps: seq<MenstrualPeriod>): (o: seq<Day>)
    ensures forall d :: d in o <==> d in CreatePeriodsIndex(ps)
    ensures forall i, j :: 0 <= i < j < |o| ==> o[i] != o[j]
    ensures forall i, j :: 0 <= i < j < |o| ==> OccursBefore(ps, o[i], o[j])
    decreases |ps|
  {
    if |ps| == 0 then []
    else
      var init := ps[..|ps| - 1];
      var o := IndexOrder(init);
      var d := ps[|ps| - 1].hebrewDate;
      OccursBeforeExtends(init, ps);
      if d in o then o
      else
        assert forall i :: 0 <= i < |o| ==> OccursBefore(ps, o[i], d) by {
          forall i | 0 <= i < |o|
            ensures OccursBefore(ps, o[i], d)
          {
            assert o[i] in CreatePeriodsIndex(init).Keys;
            var k :| 0 <= k < |init| && init[k].hebrewDate == o[i];
            assert ps[k].hebrewDate == o[i];
            assert forall m :: 0 <= m <= k ==> ps[m].hebrewDate != d;
          }
        }
        o + [d]
  }

  /** What occurs first in a prefix occurs first in the whole list. */
  lemma OccursBeforeExtends(init: seq<MenstrualPeriod>, ps: seq<MenstrualPeriod>)
    requires init <= ps
    ensures forall a, b :: OccursBefore(init, a, b) ==> OccursBefore(ps, a, b)
  {
    forall a, b | OccursBefore(init, a, b)
      ensures OccursBefore(ps, a, b)
    {
      var k :| 0 <= k < |init| && init[k].hebrewDate == a && forall m :: 0 <= m <= k ==> init[m].hebrewDate != b;
      assert ps[k].hebrewDate == a;
    }
  }

  /** Each date maps to the last period carrying it. */
  lemma {:induction false} IndexKeepsLast(ps: seq<MenstrualPeriod>, i: nat)
    requires i < |ps|
    requires forall j :: i < j < |ps| ==> ps[j].hebrewDate != ps[i].hebrewDate
    ensures CreatePeriodsIndex(ps)[ps[i].hebrewDate] == ps[i]
    decreases |ps|
  {
    if i < |ps| - 1 {
      IndexKeepsLast(ps[..|ps| - 1], i);
    }
  }
}
