# Calendar planner — holiday rules, month grid and planner updates

A Dafny model of the logic in `src/CalendarPlanner.tsx`, a React month-view
calendar with a day planner and a to-do list. The model covers the parts of
that component that compute things; the rendering, the browser storage and
the network are not modelled.

- **Dates** (`calendar.dfy`). Dates are `Civil(year, month, day)` values in
  the proleptic Gregorian calendar. Each date has a day number (days since
  1970-01-01) and a weekday derived from it.
  - `AddDays` and `AddMonths` model `addDays` and `addMonths`. `JsDate`
    models `new Date(y, monthIndex, d)`: out-of-range months and days
    carry over, and years 0 to 99 become 1900 to 1999.
  - `Key` models `keyOf` (`YYYY-MM-DD` with `pad2`). The dash-separated
    numbers of a key read back as its date.
- **Text** (`text.dfy`). The string helpers the component uses:
  - `trim`;
  - `split` and `join` on one character;
  - `String(n)`;
  - the subset of `Number(s)` that the component feeds it.
- **Month grid** (`grid.dfy`). `MakeDays` builds the 42 cells of the month
  view with a loop, as `makeDays` does. Its contract states:
  - the cells are consecutive days;
  - they start on the configured first weekday, 0 to 6 days before the
    first of the month;
  - every day of the month is among them;
  - `isCurMonth` holds exactly for the cells inside the displayed month.
- **Calendar import** (`ics.dfy`).
  - `ParseIcs` is the line-by-line `parseICS` loop. It is proved equal to
    `Run`, a fold of a one-line step function, and the behaviour of each
    kind of line is proved about that step.
  - `HolidayMapFromIcs` is the `holidayMapFromICS` loop. It is proved equal
    to a fold of map updates, whose keys and labels are characterised
    exactly, including "the last event for a date wins".
- **Holiday rules** (`holidays.dfy`).
  - `ManualMap` splits the hand-typed list, as `manualMap` does.
  - `Spread` is the object spread behind `baseHolidayMap` and the imports.
  - `EffectiveHolidaySet` runs the two passes of `effectiveHolidaySet`:
    - the lunar pass adds the day before and after every 설날/설/추석
      entry;
    - when enabled, the substitute pass adds the next weekday after a
      Sunday entry, after a weekend 어린이날 or 5-5 entry, and after a
      weekend lunar entry.
  - `NextWeekday` is the `do … while` loop of `nextWeekday`.
  - Each method is proved equal to a set comprehension. The properties of
    the rules are proved about that comprehension.
- **Day colours** (`marks.dfy`). `isHoliday` and the precedence of the
  number colour: red, then Saturday blue, then the accent colour for today,
  then `inherit`.
- **Planner updates** (`planner.dfy`). The functional state updates of the
  events map and the to-do list: add, delete and edit an event; add, toggle
  and delete a to-do. `delEvent` copies the map and then deletes from it,
  so it is a method.
- **Colours** (`colors.dfy`). The arithmetic of `hexToRgba`:
  - `#` removal;
  - three-digit expansion;
  - `parseInt(…, 16)` on the longest leading hex run;
  - the 32-bit shifts and masks.

Holiday keys are strings. As in the component, a hand-typed key that is not
in `YYYY-MM-DD` form is still a key of the set, and its own day is not
marked, because no cell has that key. Hand-typed dates are labelled 휴일, so
they never earn lunar neighbours or a label-based substitute day. Lunar
neighbours come only from imported or stored entries whose label names
설날, 설 or 추석. When such an entry's key has parts that are not numbers,
its neighbour key is `NaN-NaN-NaN`, and it earns no substitute day.

## Model

| member | source | states |
|---|---|---|
| Text.Trim | src/CalendarPlanner.tsx:443 | `trim()`: the result is a slice of the input with only white space cut off on either side, and it neither starts nor ends with white space |
| Text.TrimBlank | src/CalendarPlanner.tsx:503 | `!s.trim()` holds exactly when the text is empty or all white space |
| Text.TrimIdempotent | src/CalendarPlanner.tsx:443 | trimming an already trimmed text changes nothing |
| Text.Split | src/CalendarPlanner.tsx:461 | `split(c)` gives at least one piece and no piece contains the separator |
| Text.JoinSplit | src/CalendarPlanner.tsx:76 | joining the pieces of a split with the same separator gives back the text |
| Text.SplitJoin | src/CalendarPlanner.tsx:76 | splitting a join of separator-free pieces gives back the pieces |
| Text.AfterLastSpec | src/CalendarPlanner.tsx:70 | `split(":").pop()` is the text after the last colon (a colon-free suffix preceded by a colon), or the whole line when it has no colon |
| Text.AfterFirstSpec | src/CalendarPlanner.tsx:76 | `split(":").slice(1).join(":")` is everything after the first colon, later colons included, and empty when there is no colon |
| Text.NatToString | src/CalendarPlanner.tsx:32 | `String(n)` is a digit string reading back as n, with no leading zero, one digit below 10 and two below 100 |
| Text.NumberOfString | src/CalendarPlanner.tsx:88 | `Number(String(n))` is n |
| Text.JsNumber | src/CalendarPlanner.tsx:88 | `Number(s)` of blank text is 0, of a text that is not all digits once trimmed is NaN, and of a digit string, with white space around it or leading zeros, its decimal value |
| Text.ContainsPrefix | src/CalendarPlanner.tsx:460 | a text containing a word contains every prefix of it, so the alternative 설날 of the lunar test adds nothing to 설 |
| Calendar.DaysInMonth | src/CalendarPlanner.tsx:39 | a month has 28 to 31 days |
| Calendar.NextDay | src/CalendarPlanner.tsx:39 | the next day is a valid date whose day number is one more |
| Calendar.PrevDay | src/CalendarPlanner.tsx:39 | the previous day is a valid date whose day number is one less |
| Calendar.AddDays | src/CalendarPlanner.tsx:37-41 | `addDays(d, n)` is a valid date exactly n days after d, for negative n as well |
| Calendar.CivilFromDays | src/CalendarPlanner.tsx:37-41 | every day number is the day number of exactly one valid date |
| Calendar.DayNumberInjective | src/CalendarPlanner.tsx:37-41 | two valid dates with the same day number are the same date |
| Calendar.CivilFromDayNumber | src/CalendarPlanner.tsx:37-41 | converting a date to its day number and back gives the date |
| Calendar.AddDaysInverse | src/CalendarPlanner.tsx:37-41 | moving n days forward and then n days back returns to the start |
| Calendar.WeekdayOfNextDay | src/CalendarPlanner.tsx:474-475 | `getDay()` of the next day is one more, modulo 7 |
| Calendar.WeekdayShift | src/CalendarPlanner.tsx:474-475 | `getDay()` n days later is shifted by n, modulo 7 |
| Calendar.Weekday | src/CalendarPlanner.tsx:426 | `getDay()` is between 0 and 6, and 1970-01-01 is a Thursday (4) |
| Calendar.Pad2 | src/CalendarPlanner.tsx:32 | `pad2(n)` is two digits reading back as n for n below 100, and `String(n)` from 100 on |
| Calendar.KeyFields | src/CalendarPlanner.tsx:33-34 | `keyOf(d)` is the year's decimal text, `-`, two digits reading as the month, `-`, and two digits reading as the day |
| Calendar.KeyText | src/CalendarPlanner.tsx:33-34 | `keyOf` of 6 September 2025 is `2025-09-06` |
| Calendar.KeySplit | src/CalendarPlanner.tsx:461 | a key splits on `-` into the year, the padded month and the padded day |
| Calendar.NumberOfPad2 | src/CalendarPlanner.tsx:461 | `Number(pad2(n))` is n for n below 100 |
| Calendar.KeyRoundTrip | src/CalendarPlanner.tsx:461 | `k.split("-").map(Number)` of `keyOf(d)` gives d's year, month and day |
| Calendar.KeyInjective | src/CalendarPlanner.tsx:33-34 | distinct dates have distinct keys |
| Calendar.JsDate | src/CalendarPlanner.tsx:462 | `new Date(y, monthIndex, d)` is a valid date lying d - 1 days after the first of the month monthIndex months from January of the year, counted from 1900 for years 0 to 99 |
| Calendar.MonthCarry | src/CalendarPlanner.tsx:36 | a month index outside 0 to 11 carries whole years into the year |
| Calendar.JsDateInRange | src/CalendarPlanner.tsx:462 | `new Date(y, m - 1, d)` with the month and day in range is that date, years 0 to 99 counted from 1900 |
| Calendar.AddMonths | src/CalendarPlanner.tsx:35-36 | `addMonths(d, n)` is the first day of the month n months later, the year carrying over in either direction |
| Grid.FirstOfMonth | src/CalendarPlanner.tsx:424 | `new Date(y, m, 1)` is the first day of the displayed month |
| Grid.FirstIndex | src/CalendarPlanner.tsx:425 | `firstIndex` is 0 to 6 and counts the days from the week's first day (Sunday, or Monday) back to the first of the month |
| Grid.StepBackAligned | src/CalendarPlanner.tsx:425-427 | stepping back `firstIndex` days from the first lands 0 to 6 days earlier on a Sunday, or on a Monday when weeks start on Monday |
| Grid.NearMonth | src/CalendarPlanner.tsx:924 | for a date less than four weeks before or after the month, having the month's number is the same as lying inside the month, and a day inside it is the day at that offset |
| Grid.IsCurMonth | src/CalendarPlanner.tsx:924 | for a date less than four weeks before or after the displayed month, `isCurMonth` holds exactly when it lies in that month |
| Grid.RunSnoc | src/CalendarPlanner.tsx:431-432 | appending the next day to a run of consecutive days keeps it a run |
| Grid.GridCellsOfMonth | src/CalendarPlanner.tsx:421-435 | 42 consecutive days from the aligned start hold every day of the month, and `isCurMonth` holds exactly for the cells inside it |
| Grid.MakeDays | src/CalendarPlanner.tsx:421-435 | `makeDays()` returns 42 consecutive days from the aligned start, 0 to 6 days before the first, on the configured first weekday, holding every day of the month, with `isCurMonth` exact |
| Grid.March2025Grid | src/CalendarPlanner.tsx:421-435 | the Sunday-first grid of March 2025 runs from 2025-02-23 to 2025-04-05 |
| Ics.Set | src/CalendarPlanner.tsx:71 | setting a field of the event under construction changes only that field, and a newly set field becomes the last key |
| Ics.AppendToLast | src/CalendarPlanner.tsx:65-66 | a continuation appends to the field created last and to no other, and does nothing when no field is set |
| Ics.Feed | src/CalendarPlanner.tsx:64-78 | handling a line inside an event keeps the field order consistent with the fields that are set |
| Ics.DtEndLine | src/CalendarPlanner.tsx:72-74 | a `DTEND…:v` line sets the end to the trimmed text after the last colon and leaves the start and summary alone |
| Ics.OtherLineIgnored | src/CalendarPlanner.tsx:64-78 | inside an event, a line that is not a continuation and starts with none of `DTSTART`, `DTEND`, `SUMMARY` changes nothing |
| Ics.Step | src/CalendarPlanner.tsx:59-79 | handling one line keeps the parser state consistent |
| Ics.Run | src/CalendarPlanner.tsx:58-80 | reading the lines in order ends in a consistent state with no more events than lines |
| Ics.RemoveCR | src/CalendarPlanner.tsx:56 | `replace(/\r/g, "")` leaves no carriage return and never lengthens the text; a single character is dropped exactly when it is a carriage return |
| Ics.RemoveCRAppend | src/CalendarPlanner.tsx:56 | removing carriage returns from a concatenation removes them from each part, so every other character stays, in order |
| Ics.RemoveCRWithout | src/CalendarPlanner.tsx:56 | text without a carriage return is unchanged by its removal |
| Ics.LinesSpec | src/CalendarPlanner.tsx:56 | `replace(/\r/g, "").split("\n")` (`Lines`) gives at least one line, none holding a line feed or carriage return, and joined with line feeds they are the text without carriage returns |
| Text.SplitWithoutChar | src/CalendarPlanner.tsx:56 | a character the text lacks is in none of the pieces of its split |
| Ics.ParseIcs | src/CalendarPlanner.tsx:54-82 | the loop returns the events of `Run` over the lines of the text |
| Ics.StepEmits | src/CalendarPlanner.tsx:60-62 | a line adds at most one event, the one under construction, and adds it exactly when it is `END:VEVENT` and a start was read |
| Ics.OutsideIgnored | src/CalendarPlanner.tsx:63 | outside an event every line except `BEGIN:VEVENT` is ignored |
| Ics.BeginDiscards | src/CalendarPlanner.tsx:59 | `BEGIN:VEVENT` starts an empty event and drops an unfinished one |
| Ics.DtStartLine | src/CalendarPlanner.tsx:69-71 | a `DTSTART…:v` line sets the start to the trimmed text after the last colon and leaves the other fields alone |
| Ics.SummaryLine | src/CalendarPlanner.tsx:75-77 | a `SUMMARY:v` line sets the summary to the trimmed text after the first colon and leaves the other fields alone |
| Ics.ContinuationLine | src/CalendarPlanner.tsx:64-67 | a line starting with a space or tab (`IsContinuation`, the test `/^[ \t]/`) appends its trimmed text to the field created last |
| Ics.RunPrefix | src/CalendarPlanner.tsx:58-80 | reading more lines only appends events |
| Ics.EventsHaveStart | src/CalendarPlanner.tsx:61 | every returned event has a non-empty start |
| Ics.EventsBounded | src/CalendarPlanner.tsx:60-62 | there are no more events than `END:VEVENT` lines |
| Ics.NoBeginNoEvents | src/CalendarPlanner.tsx:59-63 | text without `BEGIN:VEVENT` gives no events |
| Ics.RunBlock | src/CalendarPlanner.tsx:58-80 | a two-line block between `BEGIN` and `END` is the fold of its two lines into a fresh event |
| Ics.StartAndSummary | src/CalendarPlanner.tsx:69-77 | `DTSTART;VALUE=DATE:d` then `SUMMARY:t` give start d, no end and summary t |
| Ics.OneEvent | src/CalendarPlanner.tsx:54-82 | a one-event calendar parses to exactly that event |
| Ics.EntryOf | src/CalendarPlanner.tsx:86-92 | an event gives an entry exactly when its start has 8 characters and its first four read as the year; the key is `year-MM-DD` and the label the summary, or 휴일 when it is empty |
| Ics.FoldSpec | src/CalendarPlanner.tsx:92 | after the writes, a key is present exactly when some entry wrote it, and it holds the last label written to it |
| Ics.IcsEntries | src/CalendarPlanner.tsx:85 | one entry per event, in the order of the events |
| Ics.IcsHolidaysSnoc | src/CalendarPlanner.tsx:85-93 | the map for one more event is the previous map with that event's entry written |
| Ics.PutEvent | src/CalendarPlanner.tsx:86-92 | one loop iteration writes the event's entry, when it has one |
| Ics.HolidayMapFromIcs | src/CalendarPlanner.tsx:83-95 | the loop returns the map written by the entries of the parsed events, in order |
| Ics.IcsHolidaysSpec | src/CalendarPlanner.tsx:83-95 | a date is in the imported map exactly when an event of the year writes it, and it holds the label of the last such event |
| Ics.IcsKeysOfYear | src/CalendarPlanner.tsx:88-92 | every imported key is `year-MM-DD` built from the start of an event of that year |
| Holidays.Pieces | src/CalendarPlanner.tsx:442 | splitting on separator characters gives at least one piece and no piece holds a separator |
| Holidays.PiecesCover | src/CalendarPlanner.tsx:442 | the pieces, concatenated, are the text without its separators |
| Holidays.KeptCover | src/CalendarPlanner.tsx:443-444 | dropping empty pieces keeps the text, and every kept piece is non-empty and separator-free |
| Holidays.TokensSpec | src/CalendarPlanner.tsx:441-444 | the date tokens are non-empty and separator-free, and together they are the typed text without separators |
| Holidays.PiecesAreSplit | src/CalendarPlanner.tsx:442 | the pieces are the pieces of `split(",")` once every separator character is a comma, and joined with commas they give that text back |
| Holidays.KeptIsFilter | src/CalendarPlanner.tsx:443-444 | on separator-free pieces, trimming and dropping empty pieces is `filter(Boolean)` |
| Holidays.TokensOfSplit | src/CalendarPlanner.tsx:441-444 | the hand-typed dates are the non-empty pieces of the text split at every separator character |
| Holidays.LabelledSnoc | src/CalendarPlanner.tsx:445 | one more piece adds its trimmed text with label 휴일 when it is non-empty, and nothing otherwise |
| Holidays.ManualMap | src/CalendarPlanner.tsx:439-447 | the hand-typed map holds exactly the typed tokens, each labelled 휴일 |
| Holidays.Spread | src/CalendarPlanner.tsx:449-452 | `{ ...under, ...over }` holds the keys of both maps, and the labels of `over` win |
| Holidays.SpreadIdempotent | src/CalendarPlanner.tsx:389 | importing the same calendar twice gives the same map as importing it once |
| Holidays.KeyDate | src/CalendarPlanner.tsx:461-462 | a date read from a key is a valid date |
| Holidays.KeyDateOfKey | src/CalendarPlanner.tsx:461-462 | the date read from `keyOf(d)` is d, for years from 100 on |
| Holidays.IsLunar | src/CalendarPlanner.tsx:460 | `/(설날|설|추석)/`, the test of the lunar pass and, at line 485, of the lunar substitute rule, matches exactly when the label contains 설 or 추석 |
| Holidays.IsChildrensDay | src/CalendarPlanner.tsx:482 | `/어린이날/` matches only labels of at least four characters, and matches every label that starts with the word |
| Holidays.ChildrensDayAnywhere | src/CalendarPlanner.tsx:482 | `/어린이날/` matches the word with any text before and after it |
| Holidays.MayFifthDate | src/CalendarPlanner.tsx:482 | a key whose month and day read as 5 and 5, and which reads as a date, reads as the fifth of May |
| Holidays.MayFifthKey | src/CalendarPlanner.tsx:482 | the key of a date passes the 5-5 test exactly when the date is the fifth of May |
| Holidays.DefaultLabelPlain | src/CalendarPlanner.tsx:445 | the label 휴일 is neither lunar nor 어린이날 |
| Holidays.HandTypedOnly | src/CalendarPlanner.tsx:439-467 | with substitutes off, hand-typed dates mark exactly themselves and no neighbouring day |
| Holidays.FirstWeekdayAfter | src/CalendarPlanner.tsx:472-477 | the next weekday is a valid date |
| Holidays.FirstWeekdayAfterSpec | src/CalendarPlanner.tsx:472-477 | the next weekday is a Monday to Friday 1 to 3 days later, the days between are weekend days, and it is 1 day after a Sunday and 2 after a Saturday |
| Holidays.NextWeekday | src/CalendarPlanner.tsx:472-477 | the `do … while` loop returns the first Monday to Friday strictly after its argument |
| Holidays.WeekendBeforeNext | src/CalendarPlanner.tsx:475 | a weekend day no later than the next weekday is strictly before it, so the loop goes on |
| Holidays.StopsAtNext | src/CalendarPlanner.tsx:474-475 | the first weekday the loop reaches is the next weekday |
| Holidays.NumbersStop | src/CalendarPlanner.tsx:474-475 | on day numbers, a weekday no later than the next weekday is the next weekday |
| Holidays.DerivedAdd | src/CalendarPlanner.tsx:458 | handling one more entry adds exactly the days that entry derives |
| Holidays.PassStep | src/CalendarPlanner.tsx:478 | one `forEach` iteration keeps the set equal to the base plus what the entries handled so far derive |
| Holidays.AddLunarDays | src/CalendarPlanner.tsx:459-466 | one lunar iteration adds the neighbours of a 설날/설/추석 entry, and nothing for an empty label or another label |
| Holidays.AddSubstitutes | src/CalendarPlanner.tsx:479-487 | one substitute iteration adds the next weekday exactly when the entry needs a substitute |
| Holidays.AddNextWeekday | src/CalendarPlanner.tsx:481 | `set.add(keyOf(nextWeekday(date)))` adds the key of the first Monday to Friday after the date |
| Holidays.SubstituteDaysWhenNeeded | src/CalendarPlanner.tsx:481-486 | an entry with a date derives its next weekday exactly when it is a Sunday, a weekend 어린이날 or 5-5 entry, or a weekend lunar entry |
| Holidays.LunarPass | src/CalendarPlanner.tsx:458-467 | the lunar pass adds what every entry derives under the lunar rule |
| Holidays.SubstitutePass | src/CalendarPlanner.tsx:478-488 | the substitute pass adds what every entry derives under the substitute rules |
| Holidays.EffectiveHolidaySet | src/CalendarPlanner.tsx:454-491 | the red-day set is the base keys, plus the lunar neighbours, plus the substitute days when enabled |
| Holidays.SubstitutesOff | src/CalendarPlanner.tsx:470 | with the substitute rules off, no substitute day is derived |
| Holidays.AltToggle | src/CalendarPlanner.tsx:470 | without substitutes the set is the base keys and the lunar neighbours, and turning substitutes on only adds days |
| Holidays.SubstitutesAreWeekdays | src/CalendarPlanner.tsx:469-489 | every day added by the substitute rules is the key of a Monday to Friday |
| Holidays.OnlyKeys | src/CalendarPlanner.tsx:455 | with no lunar labels and no substitutes, the set is exactly the base keys |
| Holidays.EffectiveMonotone | src/CalendarPlanner.tsx:454-491 | adding entries to the base map never removes a red day |
| Holidays.LunarNeighboursIn | src/CalendarPlanner.tsx:460-465 | a lunar entry's own key and the keys of the days before and after it are red |
| Holidays.SubstituteIn | src/CalendarPlanner.tsx:478-487 | when an entry needs a substitute, the next weekday after it is red and is a Monday to Friday |
| Holidays.SubstituteOfEntry | src/CalendarPlanner.tsx:481-486 | an entry that needs a substitute derives the key of the next weekday |
| Holidays.SubstituteGap | src/CalendarPlanner.tsx:471-486 | an entry that needs a substitute falls on a weekend (`IsWeekend`, `getDay()` 0 or 6), and its substitute is 1 day later after a Sunday and 2 after a Saturday |
| Holidays.NextIsWeekday | src/CalendarPlanner.tsx:472-477 | the next weekday is a Monday to Friday |
| Holidays.DerivedHas | src/CalendarPlanner.tsx:478 | a day derived by a handled entry is in what the pass derives |
| Holidays.Chuseok2025 | src/CalendarPlanner.tsx:460-465 | 추석 on 2025-09-06 makes 09-05, 09-06 and 09-07 red |
| Holidays.May2018 | src/CalendarPlanner.tsx:472-477 | 2018-05-05 is a Saturday and its next weekday is 2018-05-07 |
| Holidays.ChildrensDayLabel | src/CalendarPlanner.tsx:482 | 어린이날 matches the children's-day rule and not the lunar rule |
| Holidays.ChildrensDay2018 | src/CalendarPlanner.tsx:482-483 | 어린이날 on Saturday 2018-05-05 makes Monday 2018-05-07 red only with substitutes on |
| Holidays.ChildrensDay2018On | src/CalendarPlanner.tsx:482-483 | with substitutes on, 어린이날 on 2018-05-05 makes 2018-05-07 red |
| Holidays.ChildrensDay2018Off | src/CalendarPlanner.tsx:455-467 | with substitutes off, 어린이날 on 2018-05-05 does not make 2018-05-07 red |
| Marks.IsHoliday | src/CalendarPlanner.tsx:495 | every Sunday is a holiday, every day in the red-day set is one, and a holiday that is not a Sunday is in the set |
| Marks.NumberTint | src/CalendarPlanner.tsx:927-931 | the number is red exactly on holidays (every Sunday among them), blue only on a Saturday outside the set with blue Saturdays on, the accent only on a highlighted today that is neither, and inherited otherwise |
| Marks.NumberColor | src/CalendarPlanner.tsx:927-931 | `numberColor` is `#dc2626` on a holiday, else `#2563eb` on a blue Saturday, else the accent on a highlighted today, else `inherit` |
| Marks.LunarNeighboursRed | src/CalendarPlanner.tsx:495 | the days before and after a lunar holiday are drawn red |
| Text.Filter | src/CalendarPlanner.tsx:514 | `filter` keeps exactly the elements that pass, and never lengthens the list |
| Text.FilterAll | src/CalendarPlanner.tsx:514 | filtering a list whose elements all pass changes nothing |
| Text.FilterLength | src/CalendarPlanner.tsx:514 | `filter` keeps the length exactly when every element passes |
| Text.FilterAppend | src/CalendarPlanner.tsx:514 | filtering distributes over concatenation |
| Text.FilterTwice | src/CalendarPlanner.tsx:535 | filtering twice with the same test is filtering once |
| Planner.Map | src/CalendarPlanner.tsx:521 | `map` keeps the length and transforms each element in place |
| Planner.AddEvent | src/CalendarPlanner.tsx:502-510 | a blank text changes nothing; otherwise the day gets the trimmed event appended to its list and no other day changes |
| Planner.WithoutEvent | src/CalendarPlanner.tsx:514 | the list without the id holds exactly the events with another id; it is the list itself when no event has the id, and shorter exactly when one has |
| Planner.WithoutEventAppend | src/CalendarPlanner.tsx:514 | `filter` goes event by event: a list's parts are filtered separately and concatenated, and a single event stays exactly when its id differs, so order and repetitions are kept |
| Planner.DeletedEvent | src/CalendarPlanner.tsx:511-517 | other days are unchanged, and the day is kept exactly when events with another id remain, holding just those |
| Planner.DelEvent | src/CalendarPlanner.tsx:511-517 | the copied and pruned map is `DeletedEvent`, and no event with the id remains on that day |
| Planner.EditEventText | src/CalendarPlanner.tsx:518-524 | the day's events keep their order and ids, the event with the id gets the new text, other days are unchanged, and the day is created when missing |
| Planner.NoEmptyDaysKept | src/CalendarPlanner.tsx:502-517 | adding and deleting events never leave a day with an empty list |
| Planner.DeleteAppended | src/CalendarPlanner.tsx:511-517 | deleting an event just appended with a fresh id restores the map |
| Planner.AddThenDelete | src/CalendarPlanner.tsx:502-517 | `delEvent` undoes `addEvent` when the new id is fresh |
| Planner.DeleteIdempotent | src/CalendarPlanner.tsx:511-517 | deleting the same event twice is deleting it once |
| Planner.EditIdempotent | src/CalendarPlanner.tsx:518-524 | applying the same edit twice is applying it once |
| Planner.AddTodo | src/CalendarPlanner.tsx:525-532 | a blank text changes nothing; otherwise the list keeps its items and gains one uncompleted item with the trimmed text at the end |
| Planner.ToggleTodo | src/CalendarPlanner.tsx:533-534 | exactly the items with the id flip their completion, and nothing else changes |
| Planner.DelTodo | src/CalendarPlanner.tsx:535 | the list keeps exactly the items with another id; it is the list itself when no item has the id, and shorter exactly when one has |
| Planner.DelTodoAppend | src/CalendarPlanner.tsx:535 | `filter` goes item by item: a list's parts are filtered separately and concatenated, and a single item stays exactly when its id differs, so order and repetitions are kept |
| Planner.ToggleTwice | src/CalendarPlanner.tsx:533-534 | toggling twice restores the list |
| Planner.AddThenDelTodo | src/CalendarPlanner.tsx:525-535 | deleting a just-added to-do with a fresh id restores the list, and so does a blank add |
| Colors.RemoveFirstHash | src/CalendarPlanner.tsx:43 | `replace("#", "")` leaves text without `#` unchanged and drops a leading `#` |
| Colors.RemoveFirstHashAt | src/CalendarPlanner.tsx:43 | `replace("#", "")` removes the first `#` wherever it stands, and nothing else: the text before it and the text after it are kept |
| Colors.Expand | src/CalendarPlanner.tsx:44 | a three-character text becomes six characters, each doubled in place; any other text is kept |
| Colors.Doubled | src/CalendarPlanner.tsx:44 | three-digit expansion doubles every character in place |
| Colors.HexDigitValue | src/CalendarPlanner.tsx:45 | a hex digit is worth less than 16 |
| Colors.HexRun | src/CalendarPlanner.tsx:45 | `parseInt` reads the longest leading run of hex digits |
| Colors.HexRunAll | src/CalendarPlanner.tsx:45 | an all-hex text is read to its end |
| Colors.HexValueAppend | src/CalendarPlanner.tsx:45 | the value of a concatenation of hex runs is the first value shifted by the second's length, plus the second value |
| Colors.ParseHex | src/CalendarPlanner.tsx:45 | `parseInt(s, 16)` of a non-empty all-hex text is its value as an exact integer (see "Left out" for 14 digits and more), and of a text starting with anything but a hex digit, white space or a sign is NaN |
| Colors.Bits32 | src/CalendarPlanner.tsx:46 | the shift operand is the 32-bit value congruent to the number modulo 2^32, and NaN becomes 0 |
| Colors.HexToRgb | src/CalendarPlanner.tsx:42-47 | every channel is between 0 and 255 |
| Colors.ByteOfTwo | src/CalendarPlanner.tsx:46 | two hex digits make one byte: 16 times the first digit plus the second |
| Colors.SixValue | src/CalendarPlanner.tsx:45 | six hex digits are worth the three two-digit values in base 256 |
| Colors.ChannelsOf | src/CalendarPlanner.tsx:46 | the shifts and masks recover the three bytes of a 24-bit value |
| Colors.SixDigits | src/CalendarPlanner.tsx:42-47 | `#rrggbb` gives the channels rr, gg and bb |
| Colors.ThreeDigits | src/CalendarPlanner.tsx:44 | `#rgb` gives the same colour as `#rrggbb` |
| Colors.NotHexIsBlack | src/CalendarPlanner.tsx:45-46 | a colour text that does not start with a hex digit gives black, since NaN masks to 0 |

## Left out

- The React rendering, event handlers, drag and drop, local storage and JSON persistence, the calendar `fetch`, file reading and export are not modelled. The models start from the strings and values those parts produce.
- The clock is a parameter. `Date.now()` is passed in as the id of a new event or to-do. `NumberColor` takes today's date and compares it with the cell's day; `NumberTint` takes the result of that comparison as a boolean.
- Time zones and daylight saving are not modelled. A date is a calendar day, and `addDays` moves whole days. This matches `setDate` in local time, which keeps the clock time.
- Dates are unbounded. JavaScript's limit of 8.64e15 milliseconds, beyond which a date becomes invalid, is not modelled.
- Text.JsNumber: models `Number` only on decimal digit strings, optionally surrounded by white space, and on blank text. Signs, decimals, exponents and the `0x` forms are NaN here rather than numbers.
- Text.NatToString: values are exact integers. The precision loss of JavaScript numbers above 2^53 is not modelled.
- Calendar.KeyRoundTrip: is stated for years from 0 on, because a negative year's key has an extra `-` and does not read back.
- Holidays.KeyDateOfKey: is stated for years from 100 on, because `new Date` moves years 0 to 99 to 1900 to 1999.
- Strings are sequences of Unicode characters. JavaScript strings are sequences of UTF-16 code units, so `length` and `slice(0, 8)` count code units; the two agree only on text without characters outside the Basic Multilingual Plane.
- Object key order is not modelled. Maps are `map` values. The order in which `Object.entries` is walked does not change a set built by adding elements, and the ICS parser keeps its own field order.
- Holidays.Pieces: splitting on the regular expression `[,\n\s]+` is modelled as splitting on single separators and dropping the empty pieces. This gives the same non-empty tokens.
- The `__proto__` key of JavaScript objects, which plain objects treat specially, is not modelled. Keys are ordinary strings.
- A time part after the date in `DTSTART` (as in `20250101T090000Z`) is kept as text, as in the component. Only its first eight characters are used.
- Colors.HexToRgba: the alpha value is formatted by the caller and taken as text. The function has no contract of its own; its channel arithmetic is stated by `HexToRgb` and the lemmas after it.
- Colors.ParseHex: the value is an exact integer. JavaScript's `parseInt` returns the nearest double, so from 14 hex digits on (values above 2^53) it is rounded, and past about 256 digits it is `Infinity`. After `>>` and `&` the channels can then differ: `#fffffffffffffff` parses to 2^60 in JavaScript and gives black, while the model gives white. Colours of 3 or 6 digits are not affected.
- Colors.HexToRgb: a leading sign or leading white space, which `parseInt` accepts, is handled as in `parseInt`. The only fact stated for non-hex input is that it gives black, and only when the text does not start with white space or a sign.
- The lunar-block expansion is always on in the component, guarded by `if (true)`, so the model has no switch for it.
