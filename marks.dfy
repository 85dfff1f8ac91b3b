/**
 * How a day of the month grid is marked: whether it counts as a holiday, and
 * the colour of its day number, where holidays win over blue Saturdays, which
 * win over the highlight of today.
 */
module Marks {
  import opened Calendar
  import opened Wrappers
  import opened Holidays

  /** `isHoliday(d)`: its key is in the red-day set, or it is a Sunday. */
  function IsHoliday(day: Civil, red: set<string>): (b: bool)
    requires Valid(day)
    ensures Weekday(day) == 0 ==> b
    ensures Key(day) in red ==> b
    ensures b && Weekday(day) != 0 ==> Key(day) in red
  {
    Key(day) in red || Weekday(day) == 0
  }

  /** The four colours a day number can take. */
  datatype Tint = HolidayRed | SaturdayBlue | TodayAccent | Inherit

  /** The CSS colour of a tint: red `#dc2626`, blue `#2563eb`, the accent
      colour, or `inherit`. */
  function TintColor(t: Tint, accent: string): string {
    match t
    case HolidayRed => "#dc2626"
    case SaturdayBlue => "#2563eb"
    case TodayAccent => accent
    case Inherit => "inherit"
  }

  /** `numberColor` for a cell: red for a red-set key or a Sunday, else blue
      for a Saturday when Saturdays are blue, else the accent colour for today
      when today is highlighted, else inherited. Whether the cell is today is
      a parameter, the clock being outside the model. */
  function NumberTint(day: Civil, red: set<string>, saturdayBlue: bool, isToday: bool, highlightToday: bool): (t: Tint)
    requires Valid(day)
    ensures t == HolidayRed <==> IsHoliday(day, red)
    ensures Weekday(day) == 0 ==> t == HolidayRed
    ensures t == SaturdayBlue ==> saturdayBlue && Weekday(day) == 6 && Key(day) !in red
    ensures t == TodayAccent ==> isToday && highlightToday && !IsHoliday(day, red) && !(saturdayBlue && Weekday(day) == 6)
    ensures t == Inherit ==> !IsHoliday(day, red) && !(saturdayBlue && Weekday(day) == 6) && !(isToday && highlightToday)
  {
    if Key(day) in red || Weekday(day) == 0 then HolidayRed
    else if saturdayBlue && Weekday(day) == 6 then SaturdayBlue
    else if isToday && highlightToday then TodayAccent
    else Inherit
  }

  /** `numberColor` as the colour string: red for holidays and Sundays
      whatever the settings, blue for the other Saturdays when Saturdays are
      blue, and the accent colour only for today when it is highlighted. */
  function NumberColor(day: Civil, red: set<string>, saturdayBlue: bool, today: Civil, highlightToday: bool, accent: string): (color: string)
    requires Valid(day)
    ensures IsHoliday(day, red) ==> color == "#dc2626"
    ensures !IsHoliday(day, red) && saturdayBlue && Weekday(day) == 6 ==> color == "#2563eb"
    ensures !IsHoliday(day, red) && !(saturdayBlue && Weekday(day) == 6) ==>
      color == if day == today && highlightToday then accent else "inherit"
  {
    TintColor(NumberTint(day, red, saturdayBlue, day == today, highlightToday), accent)
  }

  /** The days either side of a lunar holiday are drawn red, with or
      without the substitute rules. */
  lemma LunarNeighboursRed(base: map<string, string>, useAlt: bool, day: Civil, k: string, c: Civil,
                           saturdayBlue: bool, isToday: bool, highlightToday: bool)
    requires Valid(day) && k in base && base[k] != [] && IsLunar(base[k]) && KeyDate(k) == Some(c)
    requires day == AddDays(c, -1) || day == AddDays(c, 1)
    ensures NumberTint(day, EffectiveSet(base, useAlt), saturdayBlue, isToday, highlightToday) == HolidayRed
  {
    LunarNeighboursIn(base, k, c, useAlt);
  }
}
