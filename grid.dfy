/**
 * The month view: `makeDays` builds 42 consecutive dates (six weeks) that
 * start on the Sunday, or the Monday, on or before the first of the displayed
 * month, and each cell is flagged as belonging to the displayed month by
 * comparing month numbers only.
 */
module Grid {
  import opened Calendar

  /** `new Date(y, m, 1)` for the year and month index of `current`. */
  function FirstOfMonth(current: Civil): (first: Civil)
    requires Valid(current)
    ensures first == Civil(JsYear(current.year), current.month, 1)
  {
    JsDateInRange(current.year, current.month - 1, 1);
    JsDate(current.year, current.month - 1, 1)
  }

  /** `firstIndex`: how many cells of the first row come before the first of the month. */
  function FirstIndex(first: Civil, startOnMonday: bool): (i: int)
    requires Valid(first)
    ensures 0 <= i <= 6
    ensures (Weekday(first) - i) % 7 == if startOnMonday then 1 else 0
  {
    if startOnMonday then (Weekday(first) + 6) % 7 else Weekday(first)
  }

  /** The day number of `start`, the first cell of the grid: `firstIndex`
      days before the first of the month. */
  function StartNumber(current: Civil, startOnMonday: bool): int
    requires Valid(current)
  {
    var first := FirstOfMonth(current);
    DayNumber(first) - FirstIndex(first, startOnMonday)
  }

  /** Stepping back by the first-row offset from a day of weekday index n % 7
      lands on weekday 0 (Sunday) or, for a Monday-first week, 1. */
  lemma AlignArith(n: int, startOnMonday: bool)
    ensures var w := n % 7;
      var off := if startOnMonday then (w + 6) % 7 else w;
      0 <= off <= 6 && (n - off) % 7 == if startOnMonday then 1 else 0
  {
    var q, w := n / 7, n % 7;
    if !startOnMonday {
      DivUnique(n - w, 7, q, 0);
    } else if w >= 1 {
      DivUnique(w + 6, 7, 1, w - 1);
      DivUnique(n - (w - 1), 7, q, 1);
    } else {
      DivUnique(w + 6, 7, 0, 6);
      DivUnique(n - 6, 7, q - 1, 1);
    }
  }

  /** A date `FirstIndex` days before `first` falls on the configured first
      weekday of the week. */
  lemma StepBackAligned(first: Civil, start: Civil, startOnMonday: bool)
    requires Valid(first) && Valid(start)
    requires DayNumber(start) == DayNumber(first) - FirstIndex(first, startOnMonday)
    ensures 0 <= DayNumber(first) - DayNumber(start) <= 6
    ensures Weekday(start) == if startOnMonday then 1 else 0
  {
    var n, s := DayNumber(first) + 4, DayNumber(start) + 4;
    AlignArith(n, startOnMonday);
    assert Weekday(first) == n % 7;
    assert Weekday(start) == s % 7;
  }

  /** A date less than four weeks away from a month has that month's number
      exactly when it lies inside that month, and then it is the k-th day. */
  lemma NearMonth(first: Civil, c: Civil)
    requires Valid(first) && first.day == 1 && Valid(c)
    ensures var k, len := DayNumber(c) - DayNumber(first), DaysInMonth(first.year, first.month);
      -28 < k < 28 + len ==>
      && (c.month == first.month <==> 0 <= k < len)
      && (0 <= k < len ==> c == Civil(first.year, first.month, k + 1))
  {
    var k, len := DayNumber(c) - DayNumber(first), DaysInMonth(first.year, first.month);
    if k <= -28 || 28 + len <= k {
    } else if 0 <= k < len {
      DayNumberInjective(c, Civil(first.year, first.month, k + 1));
    } else if k < 0 {
      var p := PrevDay(first);
      var same := Civil(p.year, p.month, p.day + 1 + k);
      assert DayNumber(same) == DayNumber(p) + 1 + k;
      DayNumberInjective(c, same);
    } else {
      var q := NextDay(Civil(first.year, first.month, len));
      var same := Civil(q.year, q.month, k - len + 1);
      assert DayNumber(same) == DayNumber(q) + k - len;
      DayNumberInjective(c, same);
    }
  }

  /** `day.getMonth() === currentDate.getMonth()`. For a date less than four
      weeks away from the displayed month, comparing month numbers is the
      same as asking whether the date lies in the displayed month. */
  function IsCurMonth(day: Civil, current: Civil): (b: bool)
    ensures Valid(day) && Valid(current) ==>
      var k := DayNumber(day) - DayNumber(FirstOfMonth(current));
      -28 < k < 28 + DaysInMonth(JsYear(current.year), current.month) ==>
      (b <==> day.year == JsYear(current.year) && day.month == current.month)
  {
    if Valid(day) && Valid(current) then
      NearMonth(FirstOfMonth(current), day);
      day.month == current.month
    else day.month == current.month
  }

  /** Valid dates whose day numbers run up by one from n. */
  predicate RunFrom(days: seq<Civil>, n: int) {
    forall i :: 0 <= i < |days| ==> Valid(days[i]) && DayNumber(days[i]) == n + i
  }

  /** A run extended by the day after its end is still a run. */
  lemma RunSnoc(days: seq<Civil>, n: int, d: Civil)
    requires RunFrom(days, n) && Valid(d) && DayNumber(d) == n + |days|
    ensures RunFrom(days + [d], n)
  {
  }

  /** Forty-two consecutive dates from the aligned start hold every day of
      the displayed month, and have its month number exactly inside it. */
  lemma GridCellsOfMonth(current: Civil, startOnMonday: bool, days: seq<Civil>)
    requires Valid(current) && |days| == 42
    requires forall i :: 0 <= i < 42 ==> Valid(days[i]) && DayNumber(days[i]) == StartNumber(current, startOnMonday) + i
    ensures forall d :: 1 <= d <= DaysInMonth(JsYear(current.year), current.month) ==>
      Civil(JsYear(current.year), current.month, d) in days
    ensures forall i :: 0 <= i < 42 ==>
      (IsCurMonth(days[i], current) <==> days[i].year == JsYear(current.year) && days[i].month == current.month)
  {
    var first := FirstOfMonth(current);
    var off := DayNumber(first) - StartNumber(current, startOnMonday);
    StepBackAligned(first, days[0], startOnMonday);
    forall i | 0 <= i < 42
      ensures IsCurMonth(days[i], current) <==> days[i].year == first.year && days[i].month == first.month
    {
      NearMonth(first, days[i]);
    }
    forall d | 1 <= d <= DaysInMonth(first.year, first.month) ensures Civil(first.year, first.month, d) in days {
      NearMonth(first, days[off + d - 1]);
    }
  }

  /** `makeDays()`: 42 consecutive dates from the aligned start, which falls on
      the configured first weekday 0 to 6 days before the first of the month;
      every day of the displayed month is among them, and a cell is flagged as
      of the current month exactly when it lies in the displayed month. */
  method MakeDays(current: Civil, startOnMonday: bool) returns (days: seq<Civil>)
    requires Valid(current)
    ensures |days| == 42
    ensures forall i :: 0 <= i < 42 ==> Valid(days[i]) && DayNumber(days[i]) == StartNumber(current, startOnMonday) + i
    ensures Weekday(days[0]) == if startOnMonday then 1 else 0
    ensures 0 <= DayNumber(FirstOfMonth(current)) - DayNumber(days[0]) <= 6
    ensures forall d :: 1 <= d <= DaysInMonth(JsYear(current.year), current.month) ==>
      Civil(JsYear(current.year), current.month, d) in days
    ensures forall i :: 0 <= i < 42 ==>
      (IsCurMonth(days[i], current) <==> days[i].year == JsYear(current.year) && days[i].month == current.month)
  {
    var first := FirstOfMonth(current);
    var firstIndex := FirstIndex(first, startOnMonday);
    var start := AddDays(first, -firstIndex);
    var end := AddDays(start, 41);
    ghost var s0 := DayNumber(start);
    days := [];
    var d := start;
    while DayNumber(d) <= DayNumber(end)
      invariant Valid(d) && DayNumber(d) == s0 + |days| && DayNumber(end) == s0 + 41
      invariant |days| <= 42
      invariant RunFrom(days, s0)
      decreases DayNumber(end) - DayNumber(d)
    {
      RunSnoc(days, s0, d);
      days := days + [d];
      d := AddDays(d, 1);
    }
    StepBackAligned(first, days[0], startOnMonday);
    GridCellsOfMonth(current, startOnMonday, days);
  }

  /** Day numbers of 2025: the year starts on day 20089 and is common. */
  lemma Year2025(y: int)
    requires y == 2025
    ensures DaysBeforeYear(y) == 20089 && !IsLeapYear(y)
  {
    DaysBeforeYearClosed(y);
    DivUnique(y - 1, 4, 506, 0);
    DivUnique(y - 1, 100, 20, 24);
    DivUnique(y - 1, 400, 5, 24);
    DivUnique(1969, 4, 492, 1);
    DivUnique(1969, 100, 19, 69);
    DivUnique(1969, 400, 4, 369);
  }

  /** The first of March 2025 is day 20148, a Saturday, so a Sunday-first
      grid for that month starts on day 20142. */
  lemma March2025Start(y: int)
    requires y == 2025
    ensures StartNumber(Civil(y, 3, 15), false) == 20142
  {
    Year2025(y);
    var first := FirstOfMonth(Civil(y, 3, 15));
    assert first == Civil(y, 3, 1);
    assert DaysBeforeMonth(y, 3) == 59;
    var n := DayNumber(first);
    assert n == 20148;
    DivUnique(n + 4, 7, 2878, 6);
    assert Weekday(first) == 6;
  }

  /** Day numbers of the first and last cells of that grid. */
  lemma March2025Ends(y: int)
    requires y == 2025
    ensures DayNumber(Civil(y, 2, 23)) == 20142
    ensures DayNumber(Civil(y, 4, 5)) == 20183
  {
    Year2025(y);
  }

  /** The grid for March 2025 with weeks starting on Sunday runs from
      2025-02-23 to 2025-04-05. (The year is a parameter fixed by the
      precondition, so that the verifier reasons about it symbolically.) */
  lemma March2025Grid(y: int, days: seq<Civil>)
    requires y == 2025 && |days| == 42
    requires forall i :: 0 <= i < 42 ==> Valid(days[i]) && DayNumber(days[i]) == StartNumber(Civil(y, 3, 15), false) + i
    ensures days[0] == Civil(y, 2, 23) && days[41] == Civil(y, 4, 5)
  {
    March2025Start(y);
    March2025Ends(y);
    DayNumberInjective(days[0], Civil(y, 2, 23));
    DayNumberInjective(days[41], Civil(y, 4, 5));
  }
}
