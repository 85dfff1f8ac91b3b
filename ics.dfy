/**
 * The iCalendar subset reader: `parseICS` walks the lines of a calendar file,
 * opens an accumulator at `BEGIN:VEVENT`, fills DTSTART, DTEND and SUMMARY
 * into it, unfolds continuation lines, and emits it at `END:VEVENT` when it
 * holds a start date; `holidayMapFromICS` turns the emitted events of one
 * year into date keys with labels.
 */
module Ics {
  import opened Wrappers
  import opened Text

  /** The properties the reader captures, in the order they can be created. */
  datatype Field = DtStart | DtEnd | Summary

  /** The open accumulator `cur`: the captured properties plus the order in
      which they were first assigned, which is what `Object.keys(cur)` lists. */
  datatype Accum = Accum(dtstart: Option<string>, dtend: Option<string>, summary: Option<string>, order: seq<Field>)
  {
    function Get(f: Field): Option<string> {
      match f
      case DtStart => dtstart
      case DtEnd => dtend
      case Summary => summary
    }

    /** `order` lists every assigned property exactly once, and nothing else. */
    predicate Valid() {
      && (forall f :: f in order <==> Get(f).Some?)
      && (forall i, j :: 0 <= i < j < |order| ==> order[i] != order[j])
    }
  }

  /** An event as pushed to the result list. */
  datatype IcsEvent = IcsEvent(dtstart: string, dtend: Option<string>, summary: Option<string>)

  /** The reader's state between lines: the open accumulator, if any, and
      the events emitted so far. */
  datatype ParserState = ParserState(cur: Option<Accum>, events: seq<IcsEvent>)

  const Begin := "BEGIN:VEVENT"
  const End := "END:VEVENT"

  /** `cur = {}` */
  const Empty := Accum(None, None, None, [])

  const Start := ParserState(None, [])

  /** `cur.f = v`: assigning a property that exists keeps its place among the
      keys; a new one goes last. */
  function Set(a: Accum, f: Field, v: string): (r: Accum)
    requires a.Valid()
    ensures r.Valid() && r.Get(f) == Some(v)
    ensures forall g :: g != f ==> r.Get(g) == a.Get(g)
    ensures a.Get(f).Some? ==> r.order == a.order
    ensures a.Get(f).None? ==> r.order == a.order + [f]
  {
    var order := if f in a.order then a.order else a.order + [f];
    match f
    case DtStart => a.(dtstart := Some(v), order := order)
    case DtEnd => a.(dtend := Some(v), order := order)
    case Summary => a.(summary := Some(v), order := order)
  }

  /** `/^[ \t]/.test(line)`: a folded continuation line. */
  predicate IsContinuation(line: string) {
    |line| > 0 && (line[0] == ' ' || line[0] == '\t')
  }

  /** `Object.keys(cur).pop()`, and `cur[last] += text` when there is one. */
  function AppendToLast(a: Accum, text: string): (r: Accum)
    requires a.Valid()
    ensures r.Valid() && r.order == a.order
    ensures a.order == [] ==> r == a
    ensures a.order != [] ==> var f := a.order[|a.order| - 1];
      && a.Get(f).Some? && r.Get(f) == Some(a.Get(f).value + text)
      && forall g :: g != f ==> r.Get(g) == a.Get(g)
  {
    if a.order == [] then a
    else
      var f := a.order[|a.order| - 1];
      assert f in a.order;
      Set(a, f, a.Get(f).value + text)
  }

  /** What one line does to an open accumulator. */
  function Feed(a: Accum, line: string): (r: Accum)
    requires a.Valid()
    ensures r.Valid()
  {
    if IsContinuation(line) then AppendToLast(a, Trim(line))
    else if StartsWith(line, "DTSTART") then Set(a, DtStart, Trim(AfterLast(line, ':')))
    else if StartsWith(line, "DTEND") then Set(a, DtEnd, Trim(AfterLast(line, ':')))
    else if StartsWith(line, "SUMMARY") then Set(a, Summary, Trim(AfterFirst(line, ':')))
    else a
  }

  predicate ValidState(st: ParserState) {
    st.cur.Some? ==> st.cur.value.Valid()
  }

  /** `if (cur?.dtstart) events.push(cur)` */
  predicate Emits(cur: Option<Accum>) {
    cur.Some? && cur.value.dtstart.Some? && cur.value.dtstart.value != []
  }

  function ToEvent(a: Accum): IcsEvent
    requires a.dtstart.Some?
  {
    IcsEvent(a.dtstart.value, a.dtend, a.summary)
  }

  /** One turn of the reader's loop. */
  function Step(st: ParserState, line: string): (r: ParserState)
    requires ValidState(st)
    ensures ValidState(r)
  {
    if line == Begin then ParserState(Some(Empty), st.events)
    else if line == End then
      ParserState(None, if Emits(st.cur) then st.events + [ToEvent(st.cur.value)] else st.events)
    else if st.cur.Some? then ParserState(Some(Feed(st.cur.value, line)), st.events)
    else st
  }

  /** The reader's state after the given lines, read first to last. */
  function Run(lines: seq<string>): (r: ParserState)
    ensures ValidState(r)
    ensures |r.events| <= |lines|
    decreases |lines|
  {
    if lines == [] then Start else Step(Run(lines[..|lines| - 1]), lines[|lines| - 1])
  }

  /** `text.replace(/\r/g, "")` */
  function RemoveCR(s: string): (r: string)
    ensures '\r' !in r && |r| <= |s|
    ensures |s| == 1 ==> r == if s[0] == '\r' then [] else s
    decreases |s|
  {
    if s == [] then []
    else if s[0] == '\r' then RemoveCR(s[1..])
    else [s[0]] + RemoveCR(s[1..])
  }

  /** Removing carriage returns works piece by piece: every other character
      stays, in its order. */
  lemma {:induction false} RemoveCRAppend(a: string, b: string)
    ensures RemoveCR(a + b) == RemoveCR(a) + RemoveCR(b)
    decreases |a|
  {
    if a == [] {
      assert a + b == b;
    } else {
      assert (a + b)[0] == a[0];
      assert (a + b)[1..] == a[1..] + b;
      RemoveCRAppend(a[1..], b);
    }
  }

  /** Text without carriage returns is left as it is. */
  lemma {:induction false} RemoveCRWithout(s: string)
    requires '\r' !in s
    ensures RemoveCR(s) == s
    decreases |s|
  {
    if s != [] {
      assert '\r' !in s[1..] by { assert forall k :: 0 <= k < |s| - 1 ==> s[1..][k] == s[k + 1]; }
      RemoveCRWithout(s[1..]);
      assert [s[0]] + s[1..] == s;
    }
  }

  /** `text.replace(/\r/g, "").split("\n")` */
  function Lines(text: string): seq<string> {
    Split(RemoveCR(text), '\n')
  }

  /** The lines hold neither a line feed nor a carriage return, there is at
      least one, and joined with line feeds they are the text without its
      carriage returns. */
  lemma LinesSpec(text: string)
    ensures |Lines(text)| >= 1
    ensures forall line :: line in Lines(text) ==> '\n' !in line && '\r' !in line
    ensures Join(Lines(text), '\n') == RemoveCR(text)
  {
    SplitWithoutChar(RemoveCR(text), '\n', '\r');
    JoinSplit(RemoveCR(text), '\n');
  }

  /** `parseICS(text)`: the events emitted while reading the lines in order. */
  method ParseIcs(text: string) returns (events: seq<IcsEvent>)
    ensures events == Run(Lines(text)).events
  {
    var lines := Lines(text);
    events := [];
    var cur: Option<Accum> := None;
    var i := 0;
    while i < |lines|
      invariant 0 <= i <= |lines|
      invariant ParserState(cur, events) == Run(lines[..i])
    {
      var line := lines[i];
      assert lines[..i + 1][..i] == lines[..i];
      if line == Begin {
        cur := Some(Empty);
      } else if line == End {
        if Emits(cur) {
          events := events + [ToEvent(cur.value)];
        }
        cur := None;
      } else if cur.Some? {
        var a := cur.value;
        if IsContinuation(line) {
          if a.order != [] {
            var last := a.order[|a.order| - 1];
            assert last in a.order;
            a := Set(a, last, a.Get(last).value + Trim(line));
          }
        } else if StartsWith(line, "DTSTART") {
          a := Set(a, DtStart, Trim(AfterLast(line, ':')));
        } else if StartsWith(line, "DTEND") {
          a := Set(a, DtEnd, Trim(AfterLast(line, ':')));
        } else if StartsWith(line, "SUMMARY") {
          a := Set(a, Summary, Trim(AfterFirst(line, ':')));
        }
        cur := Some(a);
      }
      i := i + 1;
    }
    assert lines[..|lines|] == lines;
  }

  // ---------------------------------------------------------------------
  // What one line does

  /** A line grows the event list by at most one event, and only an exact
      `END:VEVENT` line closing an accumulator with a non-empty start does. */
  lemma StepEmits(st: ParserState, line: string)
    requires ValidState(st)
    ensures var r := Step(st, line);
      && (r.events == st.events || r.events == st.events + [ToEvent(st.cur.value)])
      && (r.events != st.events <==> line == End && Emits(st.cur))
  {
  }

  /** A line read with no accumulator open is ignored, unless it opens one. */
  lemma OutsideIgnored(st: ParserState, line: string)
    requires ValidState(st) && st.cur.None? && line != Begin
    ensures Step(st, line) == st
  {
  }

  /** `BEGIN:VEVENT` discards whatever was open and starts afresh. */
  lemma BeginDiscards(st: ParserState)
    requires ValidState(st)
    ensures Step(st, Begin) == ParserState(Some(Empty), st.events)
  {
  }

  /** DTSTART takes the trimmed text after the last colon of its line. */
  lemma DtStartLine(a: Accum, name: string, v: string)
    requires a.Valid() && StartsWith(name, "DTSTART") && ':' !in v
    ensures Feed(a, name + ":" + v).dtstart == Some(Trim(v))
    ensures Feed(a, name + ":" + v).dtend == a.dtend && Feed(a, name + ":" + v).summary == a.summary
  {
    var line := name + ":" + v;
    assert line[..7] == name[..7];
    assert !IsContinuation(line) by { assert line[0] == 'D'; }
    AfterLastOfTail(name, v);
  }

  /** SUMMARY takes the trimmed text after the first colon of its line,
      colons after that one included. */
  lemma SummaryLine(a: Accum, name: string, v: string)
    requires a.Valid() && StartsWith(name, "SUMMARY") && ':' !in name
    ensures Feed(a, name + ":" + v).summary == Some(Trim(v))
    ensures Feed(a, name + ":" + v).dtstart == a.dtstart && Feed(a, name + ":" + v).dtend == a.dtend
  {
    var line := name + ":" + v;
    assert line[..7] == name[..7];
    assert !IsContinuation(line) by { assert line[0] == 'S'; }
    assert !StartsWith(line, "DTSTART") by { assert line[1] == 'U'; }
    assert !StartsWith(line, "DTEND") by { assert line[1] == 'U'; }
    AfterFirstOfHead(name, v);
  }

  /** DTEND, like DTSTART, takes the trimmed text after the last colon. */
  lemma DtEndLine(a: Accum, name: string, v: string)
    requires a.Valid() && StartsWith(name, "DTEND") && ':' !in v
    ensures Feed(a, name + ":" + v).dtend == Some(Trim(v))
    ensures Feed(a, name + ":" + v).dtstart == a.dtstart && Feed(a, name + ":" + v).summary == a.summary
  {
    var line := name + ":" + v;
    assert line[..5] == name[..5];
    assert !IsContinuation(line) by { assert line[0] == 'D'; }
    assert !StartsWith(line, "DTSTART") by { assert line[2] == 'E'; }
    AfterLastOfTail(name, v);
  }

  /** Any other line inside an event, neither a continuation nor one of the
      three captured properties, leaves the event as it is. */
  lemma OtherLineIgnored(a: Accum, line: string)
    requires a.Valid() && !IsContinuation(line)
    requires !StartsWith(line, "DTSTART") && !StartsWith(line, "DTEND") && !StartsWith(line, "SUMMARY")
    ensures Feed(a, line) == a
  {
  }

  /** The piece after the last colon of `name:v`, when v has no colon, is v. */
  lemma AfterLastOfTail(name: string, v: string)
    requires ':' !in v
    ensures AfterLast(name + ":" + v, ':') == v
  {
    SplitAtLast(name, ':', v);
  }

  /** Everything after the first colon of `name:v`, when name has none, is v. */
  lemma AfterFirstOfHead(name: string, v: string)
    requires ':' !in name
    ensures AfterFirst(name + ":" + v, ':') == v
  {
    var s := name + ":" + v;
    SplitAtFirst(name, ':', v);
    JoinSplit(v, ':');
    assert Split(s, ':')[1..] == Split(v, ':');
  }

  /** A continuation line appends its trimmed text to the property created
      last, and does nothing while no property exists yet. */
  lemma ContinuationLine(a: Accum, line: string)
    requires a.Valid() && IsContinuation(line)
    ensures a.order == [] ==> Feed(a, line) == a
    ensures a.order != [] ==> var f := a.order[|a.order| - 1];
      Feed(a, line).Get(f) == Some(a.Get(f).value + Trim(line))
  {
  }

  // ---------------------------------------------------------------------
  // Whole runs

  /** Reading more lines only adds events at the end. */
  lemma {:induction false} RunPrefix(lines: seq<string>, k: nat)
    requires k <= |lines|
    ensures Run(lines[..k]).events <= Run(lines).events
    decreases |lines| - k
  {
    if k < |lines| {
      var front := lines[..|lines| - 1];
      assert front[..k] == lines[..k];
      RunPrefix(front, k);
      StepEmits(Run(front), lines[|lines| - 1]);
    } else {
      assert lines[..k] == lines;
    }
  }

  /** Every emitted event has a non-empty start. */
  lemma {:induction false} EventsHaveStart(lines: seq<string>)
    ensures forall e :: e in Run(lines).events ==> e.dtstart != []
    decreases |lines|
  {
    if lines != [] {
      EventsHaveStart(lines[..|lines| - 1]);
      StepEmits(Run(lines[..|lines| - 1]), lines[|lines| - 1]);
    }
  }

  /** The number of exact `END:VEVENT` lines. */
  function CountEnds(lines: seq<string>): nat
    decreases |lines|
  {
    if lines == [] then 0
    else CountEnds(lines[..|lines| - 1]) + if lines[|lines| - 1] == End then 1 else 0
  }

  /** There are never more events than `END:VEVENT` lines. */
  lemma {:induction false} EventsBounded(lines: seq<string>)
    ensures |Run(lines).events| <= CountEnds(lines)
    decreases |lines|
  {
    if lines != [] {
      EventsBounded(lines[..|lines| - 1]);
      StepEmits(Run(lines[..|lines| - 1]), lines[|lines| - 1]);
    }
  }

  /** A file with no `BEGIN:VEVENT` line yields no event. */
  lemma {:induction false} NoBeginNoEvents(lines: seq<string>)
    requires Begin !in lines
    ensures Run(lines) == Start
    decreases |lines|
  {
    if lines != [] {
      var front := lines[..|lines| - 1];
      assert Begin !in front by { assert forall x :: x in front ==> x in lines; }
      NoBeginNoEvents(front);
      assert lines[|lines| - 1] in lines;
    }
  }

  /** A block of two property lines between `BEGIN:VEVENT` and `END:VEVENT`
      feeds both lines to a fresh accumulator and closes it. */
  lemma RunBlock(l1: string, l2: string)
    requires l1 != Begin && l1 != End && l2 != Begin && l2 != End
    ensures Run([Begin, l1, l2, End]) == Step(ParserState(Some(Feed(Feed(Empty, l1), l2)), []), End)
  {
    var lines := [Begin, l1, l2, End];
    assert Run(lines[..1]) == ParserState(Some(Empty), []) by { assert lines[..1][..0] == []; }
    assert Run(lines[..2]) == ParserState(Some(Feed(Empty, l1)), []) by { assert lines[..2][..1] == lines[..1]; }
    assert Run(lines[..3]) == ParserState(Some(Feed(Feed(Empty, l1), l2)), []) by { assert lines[..3][..2] == lines[..2]; }
    assert lines[..|lines| - 1] == lines[..3];
  }

  /** A start line and a summary line fill a fresh accumulator. */
  lemma StartAndSummary(day: string, title: string)
    requires ':' !in day && ':' !in title
    requires day == [] || (!IsSpace(day[0]) && !IsSpace(day[|day| - 1]))
    requires title == [] || (!IsSpace(title[0]) && !IsSpace(title[|title| - 1]))
    ensures var a := Feed(Feed(Empty, "DTSTART;VALUE=DATE" + ":" + day), "SUMMARY" + ":" + title);
      a.dtstart == Some(day) && a.dtend == None && a.summary == Some(title)
  {
    DtStartLine(Empty, "DTSTART;VALUE=DATE", day);
    TrimUntouched(day);
    SummaryLine(Feed(Empty, "DTSTART;VALUE=DATE" + ":" + day), "SUMMARY", title);
    TrimUntouched(title);
  }

  /** A one-event file: the start, the summary and nothing else. */
  lemma OneEvent(day: string, title: string)
    requires day != [] && ':' !in day && ':' !in title
    requires !IsSpace(day[0]) && !IsSpace(day[|day| - 1])
    requires title == [] || (!IsSpace(title[0]) && !IsSpace(title[|title| - 1]))
    ensures Run([Begin, "DTSTART;VALUE=DATE" + ":" + day, "SUMMARY" + ":" + title, End]).events ==
      [IcsEvent(day, None, Some(title))]
  {
    var l1, l2 := "DTSTART;VALUE=DATE" + ":" + day, "SUMMARY" + ":" + title;
    assert l1 != Begin && l1 != End by { assert l1[0] == 'D'; }
    assert l2 != Begin && l2 != End by { assert l2[0] == 'S'; }
    RunBlock(l1, l2);
    StartAndSummary(day, title);
    assert End != Begin by { assert End[0] != Begin[0]; }
  }

  // ---------------------------------------------------------------------
  // holidayMapFromICS

  const DefaultLabel := "휴일"

  /** The entry one event contributes to the holiday map of `year`, if any:
      it contributes exactly when its start has at least eight characters
      whose first four read as the year; its key is the year, then characters
      4-6 and 6-8 of the start; its label is its non-empty summary, else
      "휴일". */
  function EntryOf(e: IcsEvent, year: int): (entry: Option<(string, string)>)
    ensures entry.Some? <==> |e.dtstart| >= 8 && JsNumber(e.dtstart[..4]) == Some(year)
    ensures entry.Some? ==>
      && entry.value.0 == IntToString(year) + "-" + e.dtstart[4..6] + "-" + e.dtstart[6..8]
      && (e.summary.Some? && e.summary.value != [] ==> entry.value.1 == e.summary.value)
      && (e.summary.None? || e.summary.value == [] ==> entry.value.1 == DefaultLabel)
  {
    var ymd := if |e.dtstart| < 8 then e.dtstart else e.dtstart[..8];
    assert |e.dtstart| >= 8 ==> ymd[..4] == e.dtstart[..4] && ymd[4..6] == e.dtstart[4..6] && ymd[6..8] == e.dtstart[6..8];
    if |ymd| != 8 then None
    else if JsNumber(ymd[..4]) != Some(year) then None
    else
      var label' := if e.summary.Some? && e.summary.value != [] then e.summary.value else DefaultLabel;
      Some((IntToString(year) + "-" + ymd[4..6] + "-" + ymd[6..8], label'))
  }

  /** The map filled from entries in order, a later entry overwriting an
      earlier one on the same key; a missing entry is skipped. */
  function Fold(entries: seq<Option<(string, string)>>): map<string, string>
    decreases |entries|
  {
    if entries == [] then map[]
    else
      Put(Fold(entries[..|entries| - 1]), entries[|entries| - 1])
  }

  /** `out[k] = v` for a present entry (k, v). */
  function Put(m: map<string, string>, entry: Option<(string, string)>): map<string, string> {
    if entry.Some? then m[entry.value.0 := entry.value.1] else m
  }

  /** A key is filled exactly when some entry has it, and it holds the value
      of the last such entry. */
  lemma {:induction false} FoldSpec(entries: seq<Option<(string, string)>>, k: string)
    ensures k in Fold(entries) <==> exists i :: 0 <= i < |entries| && entries[i].Some? && entries[i].value.0 == k
    ensures forall i ::
      (0 <= i < |entries| && entries[i].Some? && entries[i].value.0 == k &&
       forall j :: i < j < |entries| && entries[j].Some? ==> entries[j].value.0 != k) ==>
      k in Fold(entries) && Fold(entries)[k] == entries[i].value.1
    decreases |entries|
  {
    if entries != [] {
      var n := |entries| - 1;
      var front := entries[..n];
      FoldSpec(front, k);
      assert forall i :: 0 <= i < n ==> front[i] == entries[i];
    }
  }

  /** The entry of each event, in order. */
  function IcsEntries(events: seq<IcsEvent>, year: int): (es: seq<Option<(string, string)>>)
    ensures |es| == |events| && forall i :: 0 <= i < |events| ==> es[i] == EntryOf(events[i], year)
    decreases |events|
  {
    if events == [] then []
    else IcsEntries(events[..|events| - 1], year) + [EntryOf(events[|events| - 1], year)]
  }

  /** The holiday map built from the events, later events overwriting
      earlier ones on the same key. */
  function IcsHolidays(events: seq<IcsEvent>, year: int): map<string, string> {
    Fold(IcsEntries(events, year))
  }

  /** Taking one more event puts its entry into the map. */
  lemma IcsHolidaysSnoc(events: seq<IcsEvent>, year: int, i: nat)
    requires i < |events|
    ensures IcsHolidays(events[..i + 1], year) == Put(IcsHolidays(events[..i], year), EntryOf(events[i], year))
  {
    var es := IcsEntries(events[..i + 1], year);
    assert events[..i + 1][..i] == events[..i];
    assert es[..|es| - 1] == IcsEntries(events[..i], year);
  }

  /** `holidayMapFromICS(text, year)`: every parsed event, in order, is put
      into the map by `PutEvent`. */
  method HolidayMapFromIcs(text: string, year: int) returns (out: map<string, string>)
    ensures out == IcsHolidays(Run(Lines(text)).events, year)
  {
    var events := ParseIcs(text);
    out := map[];
    var i := 0;
    while i < |events|
      invariant 0 <= i <= |events|
      invariant out == IcsHolidays(events[..i], year)
    {
      IcsHolidaysSnoc(events, year, i);
      out := PutEvent(out, events[i], year);
      i := i + 1;
    }
    assert events[..|events|] == events;
  }

  /** One event of `holidayMapFromICS`: the first eight characters of its
      start are read as `yyyymmdd`; when there are eight and the first four
      read as the year, its summary, or "휴일", is stored under `y-mm-dd`. */
  method PutEvent(m: map<string, string>, e: IcsEvent, year: int) returns (m': map<string, string>)
    ensures m' == Put(m, EntryOf(e, year))
  {
    m' := m;
    var ymd := if |e.dtstart| < 8 then e.dtstart else e.dtstart[..8];
    if |ymd| == 8 {
      var y := JsNumber(ymd[..4]);
      if y == Some(year) {
        var mm := ymd[4..6];
        var dd := ymd[6..8];
        m' := m'[IntToString(year) + "-" + mm + "-" + dd :=
          if e.summary.Some? && e.summary.value != [] then e.summary.value else DefaultLabel];
      }
    }
  }

  /** A key is in the map exactly when some event contributes it, and it
      carries the label of the last such event. */
  lemma IcsHolidaysSpec(events: seq<IcsEvent>, year: int, k: string)
    ensures k in IcsHolidays(events, year) <==>
      exists i :: 0 <= i < |events| && EntryOf(events[i], year).Some? && EntryOf(events[i], year).value.0 == k
    ensures forall i ::
      (0 <= i < |events| && EntryOf(events[i], year).Some? && EntryOf(events[i], year).value.0 == k &&
       forall j :: i < j < |events| && EntryOf(events[j], year).Some? ==> EntryOf(events[j], year).value.0 != k) ==>
      k in IcsHolidays(events, year) && IcsHolidays(events, year)[k] == EntryOf(events[i], year).value.1
  {
    FoldSpec(IcsEntries(events, year), k);
  }

  /** Every key of the map is `y-mm-dd` for the requested year, with month and
      day taken from characters 4 to 8 of an event's start. */
  lemma IcsKeysOfYear(events: seq<IcsEvent>, year: int, k: string)
    requires k in IcsHolidays(events, year)
    ensures exists i ::
      0 <= i < |events| && |events[i].dtstart| >= 8 &&
      JsNumber(events[i].dtstart[..4]) == Some(year) &&
      k == IntToString(year) + "-" + events[i].dtstart[4..6] + "-" + events[i].dtstart[6..8]
  {
    IcsHolidaysSpec(events, year, k);
    var i :| 0 <= i < |events| && EntryOf(events[i], year).Some? && EntryOf(events[i], year).value.0 == k;
  }
}
