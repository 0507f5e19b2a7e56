/**
 * The forbidden-day rule engine of calculations.py.
 *
 * For one period (date D, time of day q, optional cycle interval I) and the
 * intervals of the earlier cycles, the engine lists, in this order before
 * the time-of-day adjustment:
 *   - 'עונה בינונית 30' on D + 29,
 *   - 'וסת החודש' on D + (length of D's month),
 *   - 'עונה בינונית 31' on D + 30,
 *   - 'הפלגה' on D + I - 1 when I is set and non-zero,
 *   - a nested group of the unbroken intervals v, each on D + v - 1, when
 *     there are at least two earlier intervals,
 * all with time of day q. Then 'אור זרוע' is inserted at the front, and for
 * a night period 'כרתי ופלתי' is inserted at position 2.
 */
module Calculations {
  import opened Options
  import opened Calendar
  import opened Models
  import Text

  const Ona30Name: string := "עונה בינונית 30"
  const MonthlyName: string := "וסת החודש"
  const Ona31Name: string := "עונה בינונית 31"
  const HaflagaName: string := "הפלגה"
  const OrZaruaName: string := "אור זרוע"
  const KartyupleityName: string := "כרתי ופלתי"

  /** Python truthiness of `cycle_interval`: `None` and `0` are false. */
  predicate Truthy(ci: Option<int>) {
    ci.Some? && ci.value != 0
  }

  // ---------------------------------------------------------------------
  // Unbroken intervals
  // ---------------------------------------------------------------------

  /** `intervals.index(v)`: the position of the FIRST occurrence of `v`. */
  function FirstIndex(h: seq<int>, v: int): (i: nat)
    requires v in h
    ensures i < |h| && h[i] == v
    ensures forall j :: 0 <= j < i ==> h[j] != v
  {
    if h[0] == v then 0 else 1 + FirstIndex(h[1..], v)
  }

  /** Some entry of `h` after position `from` is strictly greater than `v`. */
  predicate GreaterAfter(h: seq<int>, v: int, from: int) {
    exists m :: from < m < |h| && 0 <= m && h[m] > v
  }

  /**
   * The source's verdict on an interval value `v` of history `h`: it is kept
   * unless some interval after the first occurrence of `v` is strictly
   * greater. The verdict depends on the value, not on the position.
   */
  predicate Kept(h: seq<int>, v: int) {
    v in h && !GreaterAfter(h, v, FirstIndex(h, v))
  }

  /**
   * The kept values among `h[..j]`, scanned from position `j - 1` down to
   * position 0 (newest first).
   */
  function KeptFrom(h: seq<int>, j: nat): (r: seq<int>)
    requires j <= |h|
    ensures forall x :: x in r <==> x in h[..j] && Kept(h, x)
    decreases j
  {
    if j == 0 then []
    else
      var rest := KeptFrom(h, j - 1);
      assert h[..j] == h[..j - 1] + [h[j - 1]];
      if Kept(h, h[j - 1]) then [h[j - 1]] + rest else rest
  }

  /** Each occurrence of a kept value is listed; a broken value never is. */
  lemma {:induction false} KeptFromCounts(h: seq<int>, j: nat, x: int)
    requires j <= |h|
    ensures multiset(KeptFrom(h, j))[x] == if Kept(h, x) then multiset(h[..j])[x] else 0
    decreases j
  {
    if j > 0 {
      var v := h[j - 1];
      KeptFromCounts(h, j - 1, x);
      HistoryCountStep(h, j, x);
      KeptCountStep(h, j, x);
      assert (Kept(h, v) && v == x) == (Kept(h, x) && v == x);
      CountStep(multiset(KeptFrom(h, j - 1))[x], multiset(h[..j - 1])[x], Kept(h, x), v == x);
    } else {
      assert KeptFrom(h, 0) == [] && h[..0] == [];
    }
  }

  lemma HistoryCountStep(h: seq<int>, j: nat, x: int)
    requires 0 < j <= |h|
    ensures multiset(h[..j])[x] == multiset(h[..j - 1])[x] + (if h[j - 1] == x then 1 else 0)
  {
    assert h[..j] == h[..j - 1] + [h[j - 1]];
  }

  lemma KeptCountStep(h: seq<int>, j: nat, x: int)
    requires 0 < j <= |h|
    ensures multiset(KeptFrom(h, j))[x]
         == multiset(KeptFrom(h, j - 1))[x] + (if Kept(h, h[j - 1]) && h[j - 1] == x then 1 else 0)
  {
    var rest := KeptFrom(h, j - 1);
    KeptFromStep(h, j - 1);
    if Kept(h, h[j - 1]) {
      assert multiset([h[j - 1]] + rest) == multiset{h[j - 1]} + multiset(rest);
    }
  }

  /** One more scanned entry adds one to both counts when it is a kept `x`, to neither otherwise. */
  lemma CountStep(listed: int, present: int, kept: bool, hit: bool)
    requires listed == if kept then present else 0
    ensures listed + (if kept && hit then 1 else 0) == if kept then present + (if hit then 1 else 0) else 0
  {
  }

  /** The unbroken interval values of history `h`, newest first. */
  function UnbrokenValues(h: seq<int>): seq<int> {
    KeptFrom(h, |h|)
  }

  /** The inner loop of the source: the entries after `first`, newest backwards, against `v`. */
  method ScanGreaterAfter(h: seq<int>, v: int, first: nat) returns (broken: bool)
    requires first < |h|
    ensures broken == GreaterAfter(h, v, first)
  {
    broken := false;
    var k := |h| - 1;
    while k > first
      invariant first <= k <= |h| - 1
      invariant broken <==> exists m :: k < m < |h| && h[m] > v
    {
      if h[k] > v {
        broken := true;
      }
      k := k - 1;
    }
  }

  /** One step of the scan: position `j` is listed in front of the older ones exactly when it is kept. */
  lemma KeptFromStep(h: seq<int>, j: nat)
    requires j < |h|
    ensures KeptFrom(h, j + 1) == if Kept(h, h[j]) then [h[j]] + KeptFrom(h, j) else KeptFrom(h, j)
  {
  }

  /**
   * The outer loop of the source: walk `h` from the newest entry to the
   * oldest and keep each value `v` the inner loop, started after
   * `h.index(v)`, finds no greater entry for.
   */
  method ScanUnbroken(h: seq<int>) returns (kept: seq<int>)
    ensures kept == UnbrokenValues(h)
  {
    kept := [];
    var j := |h|;
    while j > 0
      invariant 0 <= j <= |h|
      invariant kept + KeptFrom(h, j) == UnbrokenValues(h)
    {
      j := j - 1;
      var v := h[j];
      var first := FirstIndex(h, v);
      var broken := ScanGreaterAfter(h, v, first);
      KeptFromStep(h, j);
      if !broken {
        assert (kept + [v]) + KeptFrom(h, j) == kept + ([v] + KeptFrom(h, j));
        kept := kept + [v];
      }
    }
    assert KeptFrom(h, 0) == [];
    assert kept + [] == kept;
  }

  /** The largest value of a non-empty history. */
  function MaxOf(h: seq<int>): (m: int)
    requires |h| > 0
    ensures m in h
    ensures forall i :: 0 <= i < |h| ==> h[i] <= m
  {
    if |h| == 1 then h[0]
    else
      var m := MaxOf(h[1..]);
      if h[0] > m then h[0] else m
  }

  /** Nothing is greater than the maximum, so it is never dropped. */
  lemma MaximumIsKept(h: seq<int>)
    requires |h| > 0
    ensures MaxOf(h) in UnbrokenValues(h)
    ensures |UnbrokenValues(h)| > 0
  {
    var m := MaxOf(h);
    assert !GreaterAfter(h, m, FirstIndex(h, m));
    assert Kept(h, m);
    assert h[..|h|] == h;
  }

  /** Two occurrences of one value get the same verdict and each is listed. */
  lemma EqualValuesSameVerdict(h: seq<int>, p: nat, q: nat)
    requires p < |h| && q < |h| && h[p] == h[q]
    ensures Kept(h, h[p]) <==> Kept(h, h[q])
    ensures Kept(h, h[p]) ==> multiset(UnbrokenValues(h))[h[p]] == multiset(h)[h[p]]
    ensures !Kept(h, h[p]) ==> h[p] !in UnbrokenValues(h)
  {
    assert h[..|h|] == h;
    KeptFromCounts(h, |h|, h[p]);
  }

  /**
   * The per-position reading of the rule: the interval at position `p` is
   * stable when no later interval is strictly greater.
   */
  predicate StableAt(h: seq<int>, p: nat)
    requires p < |h|
  {
    forall k :: p < k < |h| ==> h[k] <= h[p]
  }

  /** The stable values among `h[..j]` under the per-position reading, newest first. */
  function StableFrom(h: seq<int>, j: nat): seq<int>
    requires j <= |h|
  {
    if j == 0 then []
    else (if StableAt(h, j - 1) then [h[j - 1]] else []) + StableFrom(h, j - 1)
  }

  /**
   * The source's first-occurrence test is at least as strict as the
   * per-position one: a value it keeps is stable at each of its positions.
   */
  lemma KeptIsStable(h: seq<int>, p: nat)
    requires p < |h| && Kept(h, h[p])
    ensures StableAt(h, p)
  {
    var first := FirstIndex(h, h[p]);
    assert first <= p;
    forall k | p < k < |h|
      ensures h[k] <= h[p]
    {
      if h[k] > h[p] {
        assert GreaterAfter(h, h[p], first);
      }
    }
  }

  /** Without repeated values the two readings list exactly the same intervals. */
  lemma {:induction false} DistinctHistoryAgrees(h: seq<int>, j: nat)
    requires j <= |h|
    requires forall a, b :: 0 <= a < b < |h| ==> h[a] != h[b]
    ensures KeptFrom(h, j) == StableFrom(h, j)
    decreases j
  {
    if j > 0 {
      DistinctHistoryAgrees(h, j - 1);
      var p := j - 1;
      assert FirstIndex(h, h[p]) == p;
      assert Kept(h, h[p]) <==> StableAt(h, p);
    }
  }

  /** `[30, 31, 29]`: 29 and 31 are kept (newest first), 30 is broken by 31. */
  lemma UnbrokenExample()
    ensures UnbrokenValues([30, 31, 29]) == [29, 31]
  {
    var h := [30, 31, 29];
    assert FirstIndex(h, 29) == 2 && !GreaterAfter(h, 29, 2);
    assert FirstIndex(h, 31) == 1 && !GreaterAfter(h, 31, 1);
    assert FirstIndex(h, 30) == 0 && GreaterAfter(h, 30, 0) by { assert h[1] > 30; }
    assert KeptFrom(h, 1) == [];
    assert KeptFrom(h, 2) == [31];
    assert KeptFrom(h, 3) == [29, 31];
  }

  /**
   * `[30, 35, 30]`: the newest interval 30 is dropped because the scan for
   * it starts after the FIRST 30 and meets 35; the per-position reading
   * keeps it.
   */
  lemma FirstOccurrenceDropsNewest()
    ensures UnbrokenValues([30, 35, 30]) == [35]
    ensures StableFrom([30, 35, 30], 3) == [30, 35]
  {
    var h := [30, 35, 30];
    assert FirstIndex(h, 30) == 0 && GreaterAfter(h, 30, 0) by { assert h[1] > 30; }
    assert FirstIndex(h, 35) == 1 && !GreaterAfter(h, 35, 1);
    assert KeptFrom(h, 1) == [];
    assert KeptFrom(h, 2) == [35];
    assert KeptFrom(h, 3) == [35];
    assert StableAt(h, 2);
    assert StableAt(h, 1);
    assert !StableAt(h, 0) by { assert h[1] > h[0]; }
    assert StableFrom(h, 1) == [];
    assert StableFrom(h, 2) == [35];
  }

  /** The forbidden days of the unbroken values `values`, in the same order. */
  function PatternDays(cal: Calendar, p: MenstrualPeriod, values: seq<int>): (g: seq<ForbiddenDay>)
    ensures |g| == |values|
    ensures forall i :: 0 <= i < |g| ==>
      && g[i].name == Text.IntToString(values[i])
      && g[i].date == p.hebrewDate + values[i] - 1
      && g[i].timeOfDay == p.timeOfDay
      && g[i].sourceDate == p.hebrewDate
    ensures forall i :: 0 <= i < |g| ==>
      g[i] == NewForbiddenDay(cal, p.hebrewDate, Text.IntToString(values[i]), p.hebrewDate + values[i] - 1, p.timeOfDay)
  {
    seq(|values|, i requires 0 <= i < |values| =>
      NewForbiddenDay(cal, p.hebrewDate, Text.IntToString(values[i]), p.hebrewDate + values[i] - 1, p.timeOfDay))
  }

  /**
   * `_calculate_unbroken_patterns`: `None` for fewer than two intervals or
   * when nothing is kept; otherwise one forbidden day per kept value `v`,
   * labelled `str(v)`, on `D + v - 1`, with the period's time of day, built
   * as models.py builds every forbidden day.
   */
  function UnbrokenPatterns(cal: Calendar, p: MenstrualPeriod, h: seq<int>): (r: Option<seq<ForbiddenDay>>)
    ensures r.Some? <==> |h| >= 2
    ensures r.Some? ==> |r.value| == |UnbrokenValues(h)| > 0
    ensures r.Some? ==> forall i :: 0 <= i < |r.value| ==>
      var v := UnbrokenValues(h)[i];
      && Kept(h, v)
      && r.value[i] == NewForbiddenDay(cal, p.hebrewDate, Text.IntToString(v), p.hebrewDate + v - 1, p.timeOfDay)
  {
    if |h| < 2 then None
    else
      var values := UnbrokenValues(h);
      var g := PatternDays(cal, p, values);
      MaximumIsKept(h);
      UnbrokenDays(cal, p, h);
      if |g| == 0 then None else Some(g)
  }

  /**
   * The day for the `i`th value `UnbrokenValues` lists is built from that
   * value, and the value passes the first-occurrence test.
   */
  lemma UnbrokenDays(cal: Calendar, p: MenstrualPeriod, h: seq<int>)
    ensures var values := UnbrokenValues(h);
      forall i :: 0 <= i < |values| ==>
        && Kept(h, values[i])
        && PatternDays(cal, p, values)[i]
           == NewForbiddenDay(cal, p.hebrewDate, Text.IntToString(values[i]), p.hebrewDate + values[i] - 1, p.timeOfDay)
  {
    UnbrokenValuesKept(h);
  }

  /** Every value listed by `UnbrokenValues` passes the first-occurrence test. */
  lemma UnbrokenValuesKept(h: seq<int>)
    ensures forall i :: 0 <= i < |UnbrokenValues(h)| ==> Kept(h, UnbrokenValues(h)[i])
  {
    var values := UnbrokenValues(h);
    assert forall i :: 0 <= i < |values| ==> values[i] in values;
  }

  // ---------------------------------------------------------------------
  // The engine
  // ---------------------------------------------------------------------

  /** Python's `list.insert(i, x)` for a non-negative `i`. */
  function Insert<T>(l: seq<T>, i: nat, x: T): (r: seq<T>)
    ensures |r| == |l| + 1
    ensures i <= |l| ==> r[i] == x && r[..i] == l[..i] && r[i + 1..] == l[i..]
    ensures i > |l| ==> r == l + [x]
  {
    if i <= |l| then l[..i] + [x] + l[i..] else l + [x]
  }

  /**
   * `e` is the single forbidden day `name` on `date` at time `tod` of the
   * period dated `source`, built as models.py builds it: the calendar fields
   * and weekday of `date`, and the details [name, tod, month of `source`].
   */
  predicate IsDay(cal: Calendar, e: Entry, source: Day, name: string, date: Day, tod: int) {
    e == Single(NewForbiddenDay(cal, source, name, date, tod))
  }

  /**
   * `_add_time_based_restrictions`: for a night period (time of day 0)
   * 'אור זרוע' on the day before `ona30` goes to the front and 'כרתי ופלתי'
   * on `ona30`'s date to position 2, both for the day; for a day period
   * 'אור זרוע' on `ona30`'s date, for the night before, goes to the front.
   */
  function AddTimeBasedRestrictions(cal: Calendar, p: MenstrualPeriod, l: seq<Entry>, ona30: ForbiddenDay): (r: seq<Entry>)
    requires |l| >= 1
    ensures p.timeOfDay == 0 ==>
      && |r| == |l| + 2
      && IsDay(cal, r[0], p.hebrewDate, OrZaruaName, ona30.date - 1, 1)
      && r[1] == l[0]
      && IsDay(cal, r[2], p.hebrewDate, KartyupleityName, ona30.date, 1)
      && r[3..] == l[1..]
    ensures p.timeOfDay != 0 ==>
      && |r| == |l| + 1
      && IsDay(cal, r[0], p.hebrewDate, OrZaruaName, ona30.date, p.timeOfDay - 1)
      && r[1..] == l
  {
    if p.timeOfDay == 0 then
      var orZarua := NewForbiddenDay(cal, p.hebrewDate, OrZaruaName, ona30.date - 1, p.timeOfDay + 1);
      var kartyupleity := NewForbiddenDay(cal, p.hebrewDate, KartyupleityName, ona30.date, p.timeOfDay + 1);
      Insert(Insert(l, 0, Single(orZarua)), 2, Single(kartyupleity))
    else
      var orZarua := NewForbiddenDay(cal, p.hebrewDate, OrZaruaName, ona30.date, p.timeOfDay - 1);
      Insert(l, 0, Single(orZarua))
  }

  /** The standard 30-day entry, which the time-of-day adjustment is relative to. */
  function Ona30(cal: Calendar, p: MenstrualPeriod): (f: ForbiddenDay)
    ensures f.sourceDate == p.hebrewDate && f.name == Ona30Name
    ensures f.date == p.hebrewDate + 29 && f.timeOfDay == p.timeOfDay
    ensures f == NewForbiddenDay(cal, p.hebrewDate, Ona30Name, p.hebrewDate + 29, p.timeOfDay)
  {
    NewForbiddenDay(cal, p.hebrewDate, Ona30Name, p.hebrewDate + 29, p.timeOfDay)
  }

  /**
   * The list before the time-of-day adjustment: the three standard days,
   * then 'הפלגה' when the cycle interval is truthy, then the group of
   * unbroken intervals when the history has at least two entries.
   */
  function StandardEntries(cal: Calendar, p: MenstrualPeriod, history: seq<int>): (b: seq<Entry>)
    ensures |b| == 3 + (if Truthy(p.cycleInterval) then 1 else 0) + (if |history| >= 2 then 1 else 0)
    ensures b[0] == Single(Ona30(cal, p))
    ensures IsDay(cal, b[1], p.hebrewDate, MonthlyName, p.hebrewDate + MonthLengthOf(cal, p.hebrewDate), p.timeOfDay)
    ensures IsDay(cal, b[2], p.hebrewDate, Ona31Name, p.hebrewDate + 30, p.timeOfDay)
    ensures Truthy(p.cycleInterval) ==>
      IsDay(cal, b[3], p.hebrewDate, HaflagaName, p.hebrewDate + p.cycleInterval.value - 1, p.timeOfDay)
    ensures |history| >= 2 ==> b[|b| - 1] == Group(PatternDays(cal, p, UnbrokenValues(history)))
    ensures |history| < 2 ==> forall i :: 0 <= i < |b| ==> b[i].Single?
  {
    var d := p.hebrewDate;
    var monthly := NewForbiddenDay(cal, d, MonthlyName, d + MonthLengthOf(cal, d), p.timeOfDay);
    var ona31 := NewForbiddenDay(cal, d, Ona31Name, d + 30, p.timeOfDay);
    var standard := [Single(Ona30(cal, p)), Single(monthly), Single(ona31)];
    var withPersonal :=
      if Truthy(p.cycleInterval) then
        standard + [Single(NewForbiddenDay(cal, d, HaflagaName, d + p.cycleInterval.value - 1, p.timeOfDay))]
      else standard;
    if |history| > 0 then
      match UnbrokenPatterns(cal, p, history)
      case Some(g) => withPersonal + [Group(g)]
      case None => withPersonal
    else withPersonal
  }

  /** Number of entries the engine lists for a period. */
  function ExpectedLength(p: MenstrualPeriod, history: seq<int>): nat {
    3 + (if Truthy(p.cycleInterval) then 1 else 0) + (if |history| >= 2 then 1 else 0)
      + (if p.timeOfDay == 0 then 2 else 1)
  }

  /**
   * `calculate_forbidden_days(period, history)`. An absent history and an
   * empty one behave alike, so both are the empty sequence here.
   */
  function CalculateForbiddenDays(cal: Calendar, p: MenstrualPeriod, history: seq<int>): (r: seq<Entry>)
    ensures |r| == ExpectedLength(p, history)
    ensures var d := p.hebrewDate;
      p.timeOfDay == 0 ==>
        && IsDay(cal, r[0], d, OrZaruaName, d + 28, 1)
        && IsDay(cal, r[1], d, Ona30Name, d + 29, 0)
        && IsDay(cal, r[2], d, KartyupleityName, d + 29, 1)
        && IsDay(cal, r[3], d, MonthlyName, d + MonthLengthOf(cal, d), 0)
        && IsDay(cal, r[4], d, Ona31Name, d + 30, 0)
    ensures var d := p.hebrewDate;
      p.timeOfDay != 0 ==>
        && IsDay(cal, r[0], d, OrZaruaName, d + 29, p.timeOfDay - 1)
        && IsDay(cal, r[1], d, Ona30Name, d + 29, p.timeOfDay)
        && IsDay(cal, r[2], d, MonthlyName, d + MonthLengthOf(cal, d), p.timeOfDay)
        && IsDay(cal, r[3], d, Ona31Name, d + 30, p.timeOfDay)
    ensures var base := if p.timeOfDay == 0 then 5 else 4;
      Truthy(p.cycleInterval) ==>
        IsDay(cal, r[base], p.hebrewDate, HaflagaName, p.hebrewDate + p.cycleInterval.value - 1, p.timeOfDay)
    ensures |history| >= 2 ==> r[|r| - 1] == Group(PatternDays(cal, p, UnbrokenValues(history)))
    ensures |history| < 2 ==> forall i :: 0 <= i < |r| ==> r[i].Single?
  {
    var b := StandardEntries(cal, p, history);
    var r := AddTimeBasedRestrictions(cal, p, b, Ona30(cal, p));
    assert p.timeOfDay == 0 ==> r[3..] == b[1..] && r[3] == b[1] && r[4] == b[2];
    assert p.timeOfDay != 0 ==> r[1..] == b && r[2] == b[1] && r[3] == b[2];
    r
  }
}
