/**
 * Dates as the planner reads them from JavaScript `Date` objects in local
 * time: a civil (year, month, day) triple of the proleptic Gregorian calendar,
 * numbered by days from 1970-01-01. This module holds the date helpers
 * `pad2`, `keyOf`, `addDays` and `addMonths`, the weekday (`getDay`) and the
 * `Date(year, monthIndex, day)` constructor with its normalisation.
 */
module Calendar {
  import opened Wrappers
  import opened Text

  /** A calendar date; `month` runs 1..12 (JavaScript's `getMonth() + 1`). */
  datatype Civil = Civil(year: int, month: int, day: int)

  predicate IsLeapYear(y: int) {
    y % 4 == 0 && (y % 100 != 0 || y % 400 == 0)
  }

  function DaysInMonth(y: int, m: int): (n: int)
    requires 1 <= m <= 12
    ensures 28 <= n <= 31
  {
    if m == 2 then (if IsLeapYear(y) then 29 else 28)
    else if m == 4 || m == 6 || m == 9 || m == 11 then 30
    else 31
  }

  function DaysInYear(y: int): int {
    if IsLeapYear(y) then 366 else 365
  }

  predicate Valid(c: Civil) {
    1 <= c.month <= 12 && 1 <= c.day <= DaysInMonth(c.year, c.month)
  }

  /** Days from 1970-01-01 to January 1st of year y, year by year. */
  function DaysBeforeYear(y: int): int
    decreases if y < 1970 then 1970 - y else y - 1970
  {
    if y == 1970 then 0
    else if y > 1970 then DaysBeforeYear(y - 1) + DaysInYear(y - 1)
    else DaysBeforeYear(y + 1) - DaysInYear(y)
  }

  /** Number of multiples of 4, minus those of 100, plus those of 400, in 1..n;
      only differences of it are used, so it serves for every integer n. */
  function LeapCount(n: int): int {
    n / 4 - n / 100 + n / 400
  }

  function DaysBeforeMonth(y: int, m: int): int
    requires 1 <= m <= 12
  {
    var common :=
      if m <= 6 then
        if m == 1 then 0 else if m == 2 then 31 else if m == 3 then 59
        else if m == 4 then 90 else if m == 5 then 120 else 151
      else
        if m == 7 then 181 else if m == 8 then 212 else if m == 9 then 243
        else if m == 10 then 273 else if m == 11 then 304 else 334;
    common + (if m > 2 && IsLeapYear(y) then 1 else 0)
  }

  /** Days from 1970-01-01 to the date, negative before it: what the
      difference of two local-midnight `Date` time values counts. */
  function DayNumber(c: Civil): int
    requires Valid(c)
  {
    DaysBeforeYear(c.year) + DaysBeforeMonth(c.year, c.month) + c.day - 1
  }

  /** The weekday of day number n; 1970-01-01 was a Thursday. */
  function WeekdayOfNumber(n: int): (w: int)
    ensures 0 <= w < 7
  {
    (n + 4) % 7
  }

  /** `d.getDay()`: 0 for Sunday through 6 for Saturday. */
  function Weekday(c: Civil): (w: int)
    requires Valid(c)
    ensures 0 <= w < 7
    ensures c == Civil(1970, 1, 1) ==> w == 4
  {
    WeekdayOfNumber(DayNumber(c))
  }

  predicate IsWeekend(c: Civil)
    requires Valid(c)
  {
    Weekday(c) == 0 || Weekday(c) == 6
  }

  /** The divisors the calendar arithmetic uses. */
  predicate CalendarDivisor(k: int) {
    k == 4 || k == 7 || k == 100 || k == 400
  }

  lemma DivUnique(a: int, k: int, q: int, r: int)
    requires CalendarDivisor(k) && 0 <= r < k && a == k * q + r
    ensures a / k == q && a % k == r
  {
  }

  /** Floor division steps up by one exactly at a multiple of k. */
  lemma FloorStep(a: int, k: int)
    requires CalendarDivisor(k)
    ensures (a + 1) / k - a / k == if (a + 1) % k == 0 then 1 else 0
  {
    var q, r := a / k, a % k;
    if r + 1 < k {
      DivUnique(a + 1, k, q, r + 1);
      assert (a + 1) / k == q && (a + 1) % k != 0;
    } else {
      DivUnique(a + 1, k, q + 1, 0);
      assert (a + 1) / k == q + 1 && (a + 1) % k == 0;
    }
  }

  /** A multiple of 400 is one of 100, and a multiple of 100 one of 4. */
  lemma DivisibleChain(a: int)
    ensures a % 400 == 0 ==> a % 100 == 0
    ensures a % 100 == 0 ==> a % 4 == 0
  {
    if a % 400 == 0 {
      DivUnique(a, 100, 4 * (a / 400), 0);
    }
    if a % 100 == 0 {
      DivUnique(a, 4, 25 * (a / 100), 0);
    }
  }

  /** LeapCount steps up by one exactly at a leap year. */
  lemma LeapCountStep(n: int)
    ensures LeapCount(n + 1) - LeapCount(n) == if IsLeapYear(n + 1) then 1 else 0
  {
    DivisibleChain(n + 1);
    FloorStep(n, 4);
    FloorStep(n, 100);
    FloorStep(n, 400);
  }

  /** The year-by-year count in closed form: 365 days a year plus one per
      leap year in between. */
  lemma {:induction false} DaysBeforeYearClosed(y: int)
    ensures DaysBeforeYear(y) == 365 * (y - 1970) + LeapCount(y - 1) - LeapCount(1969)
    decreases if y < 1970 then 1970 - y else y - 1970
  {
    if y > 1970 {
      DaysBeforeYearClosed(y - 1);
      LeapCountStep(y - 2);
    } else if y < 1970 {
      DaysBeforeYearClosed(y + 1);
      LeapCountStep(y - 1);
    }
  }


  /** Consecutive months are DaysInMonth apart; December ends the year. */
  lemma MonthStep(y: int, m: int)
    requires 1 <= m <= 12
    ensures m < 12 ==> DaysBeforeMonth(y, m + 1) == DaysBeforeMonth(y, m) + DaysInMonth(y, m)
    ensures m == 12 ==> DaysBeforeMonth(y, m) + DaysInMonth(y, m) == DaysInYear(y)
  {
  }

  /** The day after (`setDate(getDate() + 1)`), rolling over month and year ends. */
  function NextDay(c: Civil): (r: Civil)
    requires Valid(c)
    ensures Valid(r) && DayNumber(r) == DayNumber(c) + 1
  {
    if c.day < DaysInMonth(c.year, c.month) then Civil(c.year, c.month, c.day + 1)
    else if c.month < 12 then MonthStep(c.year, c.month); Civil(c.year, c.month + 1, 1)
    else MonthStep(c.year, 12); Civil(c.year + 1, 1, 1)
  }

  /** The day before (`setDate(getDate() - 1)`), rolling back over month and year starts. */
  function PrevDay(c: Civil): (r: Civil)
    requires Valid(c)
    ensures Valid(r) && DayNumber(r) == DayNumber(c) - 1
  {
    if c.day > 1 then Civil(c.year, c.month, c.day - 1)
    else if c.month > 1 then MonthStep(c.year, c.month - 1); Civil(c.year, c.month - 1, DaysInMonth(c.year, c.month - 1))
    else MonthStep(c.year - 1, 12); Civil(c.year - 1, 12, 31)
  }

  /** `addDays(d, n)`: the date n days later (earlier for negative n). */
  function AddDays(c: Civil, n: int): (r: Civil)
    requires Valid(c)
    ensures Valid(r) && DayNumber(r) == DayNumber(c) + n
    decreases if n < 0 then -n else n
  {
    if n == 0 then c
    else if n > 0 then AddDays(NextDay(c), n - 1)
    else AddDays(PrevDay(c), n + 1)
  }

  const Epoch := Civil(1970, 1, 1)

  /** The date with day number n. */
  function CivilFromDays(n: int): (r: Civil)
    ensures Valid(r) && DayNumber(r) == n
  {
    assert DayNumber(Epoch) == 0;
    AddDays(Epoch, n)
  }

  lemma DayNumberWithinYear(c: Civil)
    requires Valid(c)
    ensures DaysBeforeYear(c.year) <= DayNumber(c) < DaysBeforeYear(c.year) + DaysInYear(c.year)
  {
  }

  lemma {:induction false} YearsOrdered(y1: int, y2: int)
    requires y1 < y2
    ensures DaysBeforeYear(y1) + DaysInYear(y1) <= DaysBeforeYear(y2)
    decreases y2 - y1
  {
    if y1 + 1 < y2 {
      YearsOrdered(y1 + 1, y2);
    }
  }

  lemma {:induction false} MonthsOrdered(y: int, m1: int, m2: int)
    requires 1 <= m1 < m2 <= 12
    ensures DaysBeforeMonth(y, m1) + DaysInMonth(y, m1) <= DaysBeforeMonth(y, m2)
    decreases m2 - m1
  {
    MonthStep(y, m1);
    if m1 + 1 < m2 {
      MonthsOrdered(y, m1 + 1, m2);
    }
  }

  /** Distinct dates have distinct day numbers. */
  lemma DayNumberInjective(c1: Civil, c2: Civil)
    requires Valid(c1) && Valid(c2) && DayNumber(c1) == DayNumber(c2)
    ensures c1 == c2
  {
    DayNumberWithinYear(c1);
    DayNumberWithinYear(c2);
    if c1.year < c2.year {
      YearsOrdered(c1.year, c2.year);
    } else if c2.year < c1.year {
      YearsOrdered(c2.year, c1.year);
    } else if c1.month < c2.month {
      MonthsOrdered(c1.year, c1.month, c2.month);
    } else if c2.month < c1.month {
      MonthsOrdered(c1.year, c2.month, c1.month);
    }
  }

  /** Day numbers and dates are in one-to-one correspondence. */
  lemma CivilFromDayNumber(c: Civil)
    requires Valid(c)
    ensures CivilFromDays(DayNumber(c)) == c
  {
    DayNumberInjective(CivilFromDays(DayNumber(c)), c);
  }

  /** Going forward n days and back n days returns to the start. */
  lemma AddDaysInverse(c: Civil, n: int)
    requires Valid(c)
    ensures AddDays(AddDays(c, n), -n) == c
  {
    DayNumberInjective(AddDays(AddDays(c, n), -n), c);
  }

  /** Going one day later moves the weekday one step round the week. */
  lemma WeekdayOfNextDay(c: Civil)
    requires Valid(c)
    ensures Weekday(NextDay(c)) == (Weekday(c) + 1) % 7
  {
    var m := DayNumber(c);
    assert DayNumber(NextDay(c)) == m + 1;
    WeekdayOfNumberShift(m, 1);
  }

  /** Adding n and reducing modulo seven commute. */
  lemma ModSevenShift(a: int, n: int)
    ensures (a + n) % 7 == (a % 7 + n) % 7
  {
    var q, r := a / 7, a % 7;
    var q2, r2 := (r + n) / 7, (r + n) % 7;
    DivUnique(r + n, 7, q2, r2);
    DivUnique(a + n, 7, q + q2, r2);
  }

  /** n days later the weekday number has moved on by n, modulo seven. */
  lemma WeekdayOfNumberShift(m: int, n: int)
    ensures WeekdayOfNumber(m + n) == (WeekdayOfNumber(m) + n) % 7
  {
    ModSevenShift(m + 4, n);
  }

  /** n days later the weekday has moved on by n, modulo seven. */
  lemma WeekdayShift(c: Civil, n: int)
    requires Valid(c)
    ensures Weekday(AddDays(c, n)) == (Weekday(c) + n) % 7
  {
    var d := AddDays(c, n);
    var m, m' := DayNumber(c), DayNumber(d);
    assert m' == m + n;
    WeekdayOfNumberShift(m, n);
    assert Weekday(d) == WeekdayOfNumber(m') == WeekdayOfNumber(m + n);
  }

  /** `pad2(n)`: `String(n).padStart(2, "0")`. */
  function Pad2(n: nat): (s: string)
    ensures n < 100 ==> |s| == 2 && AllDigits(s) && DigitsValue(s) == n
    ensures n >= 100 ==> s == NatToString(n)
  {
    var t := NatToString(n);
    if |t| < 2 then
      var s := "0" + t;
      assert s[..1] == "0";
      s
    else t
  }

  /** `keyOf(d)`: `${year}-${pad2(month)}-${pad2(day)}` from local fields. */
  function Key(c: Civil): string
    requires Valid(c)
  {
    IntToString(c.year) + "-" + Pad2(c.month) + "-" + Pad2(c.day)
  }

  /** A key is the year's decimal text, a dash, the month in two digits, a
      dash and the day in two digits. */
  lemma KeyFields(c: Civil)
    requires Valid(c)
    ensures var k := Key(c);
      && |k| == |IntToString(c.year)| + 6 && k[..|k| - 6] == IntToString(c.year)
      && k[|k| - 6] == '-' && k[|k| - 3] == '-'
      && AllDigits(k[|k| - 5..|k| - 3]) && DigitsValue(k[|k| - 5..|k| - 3]) == c.month
      && AllDigits(k[|k| - 2..]) && DigitsValue(k[|k| - 2..]) == c.day
  {
    DashedFields(IntToString(c.year), Pad2(c.month), Pad2(c.day));
  }

  /** Where the fields of `y-mm-dd` sit, counted from the end. */
  lemma DashedFields(y: string, m: string, d: string)
    requires |m| == 2 && |d| == 2
    ensures var k := y + "-" + m + "-" + d;
      && |k| == |y| + 6 && k[..|k| - 6] == y
      && k[|k| - 6] == '-' && k[|k| - 3] == '-'
      && k[|k| - 5..|k| - 3] == m && k[|k| - 2..] == d
  {
    var k := y + "-" + m + "-" + d;
    assert k[..|y|] == y;
    assert k[|y| + 1..|y| + 3] == m;
    assert k[|y| + 4..] == d;
  }

  /** The form of a key: four-digit year, two-digit month and day. */
  lemma KeyText()
    ensures Key(Civil(2025, 9, 6)) == "2025-09-06"
  {
    DecimalOf2025();
    PadDigit(9);
    PadDigit(6);
    assert Key(Civil(2025, 9, 6)) == "2025" + "-" + "09" + "-" + "06";
  }

  /** `pad2` of a single digit puts a zero before it. */
  lemma PadDigit(n: nat)
    requires n < 10
    ensures Pad2(n) == ['0', ('0' as int + n) as char]
  {
  }

  /** `String(2025)`, one digit at a time. */
  lemma DecimalOf2025()
    ensures IntToString(2025) == "2025"
  {
    DecimalOf202();
    assert 2025 / 10 == 202 && 2025 % 10 == 5;
  }

  lemma DecimalOf202()
    ensures NatToString(202) == "202"
  {
    DecimalOf20();
    assert 202 / 10 == 20 && 202 % 10 == 2;
  }

  lemma DecimalOf20()
    ensures NatToString(20) == "20"
  {
    assert NatToString(2) == "2";
    assert 20 / 10 == 2 && 20 % 10 == 0;
  }

  /** `k.split("-").map(Number)`, None standing for NaN. */
  function KeyNumbers(k: string): seq<Option<int>> {
    Numbers(Split(k, '-'))
  }

  /** `parts.map(Number)` */
  function Numbers(parts: seq<string>): (ns: seq<Option<int>>)
    ensures |ns| == |parts|
  {
    if parts == [] then [] else [JsNumber(parts[0])] + Numbers(parts[1..])
  }

  lemma NumberOfPad2(n: nat)
    requires n < 100
    ensures JsNumber(Pad2(n)) == Some(n)
  {
    var s := Pad2(n);
    assert !IsSpace(s[0]) && !IsSpace(s[1]) by { assert IsDigit(s[0]) && IsDigit(s[1]); }
    TrimUntouched(s);
  }

  /** For a year >= 0, `keyOf` splits on "-" into exactly three numbers that
      give back the year, month and day. */
  lemma SplitThree(a: string, b: string, d: string)
    requires '-' !in a && '-' !in b && '-' !in d
    ensures Split(a + "-" + b + "-" + d, '-') == [a, b, d]
  {
    assert Join([d], '-') == d;
    assert Join([b, d], '-') == b + "-" + d by { assert [b, d][1..] == [d]; }
    assert a + "-" + b + "-" + d == Join([a, b, d], '-') by { assert [a, b, d][1..] == [b, d]; }
    SplitJoin([a, b, d], '-');
  }

  /** `keyOf` splits on "-" into the year, month and day strings. */
  lemma KeySplit(c: Civil)
    requires Valid(c) && c.year >= 0
    ensures Split(Key(c), '-') == [NatToString(c.year), Pad2(c.month), Pad2(c.day)]
  {
    var a, b, d := NatToString(c.year), Pad2(c.month), Pad2(c.day);
    assert '-' !in a by { assert forall i :: 0 <= i < |a| ==> IsDigit(a[i]); }
    assert '-' !in b by { assert forall i :: 0 <= i < |b| ==> IsDigit(b[i]); }
    assert '-' !in d by { assert forall i :: 0 <= i < |d| ==> IsDigit(d[i]); }
    SplitThree(a, b, d);
  }

  lemma NumbersOfThree(a: string, b: string, d: string)
    ensures Numbers([a, b, d]) == [JsNumber(a), JsNumber(b), JsNumber(d)]
  {
    assert [a, b, d][1..] == [b, d];
    assert [b, d][1..] == [d];
    assert Numbers([d]) == [JsNumber(d)] by { assert [d][1..] == []; }
    assert Numbers([b, d]) == [JsNumber(b), JsNumber(d)];
  }

  /** For a year >= 0, `keyOf` splits on "-" into exactly three numbers that
      give back the year, month and day. */
  lemma KeyRoundTrip(c: Civil)
    requires Valid(c) && c.year >= 0
    ensures KeyNumbers(Key(c)) == [Some(c.year), Some(c.month), Some(c.day)]
  {
    KeySplit(c);
    NumbersOfThree(NatToString(c.year), Pad2(c.month), Pad2(c.day));
    NumberOfString(c.year);
    NumberOfPad2(c.month);
    NumberOfPad2(c.day);
  }

  /** Two dates of years >= 0 have the same key only if they are the same date. */
  lemma KeyInjective(c1: Civil, c2: Civil)
    requires Valid(c1) && c1.year >= 0 && Valid(c2) && c2.year >= 0
    requires Key(c1) == Key(c2)
    ensures c1 == c2
  {
    KeyRoundTrip(c1);
    KeyRoundTrip(c2);
  }

  /** The year `new Date(y, ...)` uses: 0..99 stand for 1900..1999. */
  function JsYear(y: int): int {
    if 0 <= y <= 99 then 1900 + y else y
  }

  /** `new Date(y, monthIndex, d)` for integer arguments: month indexes
      outside 0..11 carry into the year, days outside the month carry into
      neighbouring months. */
  function JsDate(y: int, monthIndex: int, d: int): (r: Civil)
    ensures Valid(r)
    ensures var first := AddDays(r, 1 - d);
      first.day == 1 && first.year * 12 + (first.month - 1) == JsYear(y) * 12 + monthIndex
  {
    var first := Civil(JsYear(y) + monthIndex / 12, monthIndex % 12 + 1, 1);
    MonthCarry(JsYear(y), monthIndex);
    var r := AddDays(first, d - 1);
    AddDaysInverse(first, d - 1);
    assert AddDays(r, 1 - d) == first;
    r
  }

  /** Month indexes past 11, or below 0, carry whole years. */
  lemma MonthCarry(y: int, monthIndex: int)
    ensures 0 <= monthIndex % 12 < 12
    ensures (y + monthIndex / 12) * 12 + monthIndex % 12 == y * 12 + monthIndex
  {
  }

  /** Arguments already in range make exactly that date (modulo the 1900 rule). */
  lemma JsDateInRange(y: int, monthIndex: int, d: int)
    requires 0 <= monthIndex < 12 && 1 <= d <= DaysInMonth(JsYear(y), monthIndex + 1)
    ensures JsDate(y, monthIndex, d) == Civil(JsYear(y), monthIndex + 1, d)
  {
    var r := JsDate(y, monthIndex, d);
    var first := AddDays(r, 1 - d);
    SameMonthCount(first.year, first.month, JsYear(y), monthIndex);
    DayNumberInjective(r, Civil(JsYear(y), monthIndex + 1, d));
  }

  /** A count of months since year 0 names one year and one month. */
  lemma SameMonthCount(y: int, m: int, y': int, monthIndex: int)
    requires 1 <= m <= 12 && 0 <= monthIndex < 12
    requires y * 12 + (m - 1) == y' * 12 + monthIndex
    ensures y == y' && m == monthIndex + 1
  {
  }

  /** `addMonths(d, n)`: the first day of the month n months after d's
      month, the year rolling over in either direction. */
  function AddMonths(c: Civil, n: int): (r: Civil)
    requires Valid(c)
    ensures Valid(r) && r.day == 1
    ensures r.year * 12 + (r.month - 1) == JsYear(c.year) * 12 + (c.month - 1) + n
  {
    JsDate(c.year, c.month - 1 + n, 1)
  }
}
