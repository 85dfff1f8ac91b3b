/**
 * The holiday rules of the month view: the hand-typed list of dates, its
 * merge with the imported calendar, the derived set of red days (the days
 * around a lunar holiday, and the substitute weekday after a holiday that
 * falls on a weekend), and the colour of a day number.
 */
module Holidays {
  import opened Wrappers
  import opened Text
  import opened Calendar
  import opened Ics

  // ---------------------------------------------------------------------
  // manualMap

  /** A character of the class `[,\n\s]` the hand-typed list is split on. */
  predicate IsSep(c: char) {
    c == ',' || c == '\n' || IsSpace(c)
  }

  predicate NoSep(s: string) {
    forall i :: 0 <= i < |s| ==> !IsSep(s[i])
  }

  /** The text between single separator characters. Splitting on runs of
      separators, as `split(/[,\n\s]+/)` does, gives the same pieces once the
      empty ones are dropped. */
  function Pieces(s: string): (parts: seq<string>)
    ensures |parts| >= 1
    ensures forall i :: 0 <= i < |parts| ==> NoSep(parts[i])
    decreases |s|
  {
    if s == [] then [[]]
    else
      var rest := Pieces(s[1..]);
      if IsSep(s[0]) then [[]] + rest
      else
        assert NoSep(rest[0]);
        [[s[0]] + rest[0]] + rest[1..]
  }

  /** `.map((v) => v.trim()).filter(Boolean)` */
  function Kept(parts: seq<string>): seq<string>
    decreases |parts|
  {
    if parts == [] then []
    else
      var t := Trim(parts[|parts| - 1]);
      Kept(parts[..|parts| - 1]) + if t != [] then [t] else []
  }

  /** The text with every separator character replaced by a comma. */
  function Normalize(s: string): (r: string)
    ensures |r| == |s|
    ensures forall i :: 0 <= i < |s| ==> r[i] == if IsSep(s[i]) then ',' else s[i]
    decreases |s|
  {
    if s == [] then [] else [if IsSep(s[0]) then ',' else s[0]] + Normalize(s[1..])
  }

  /** The pieces are cut exactly at the separators: they are the pieces of
      `split(",")` once every separator is a comma, and joined with commas
      they give that text back. */
  lemma {:induction false} PiecesAreSplit(s: string)
    ensures Pieces(s) == Split(Normalize(s), ',')
    ensures Join(Pieces(s), ',') == Normalize(s)
    decreases |s|
  {
    if s != [] {
      PiecesAreSplit(s[1..]);
      var n := Normalize(s);
      assert n[1..] == Normalize(s[1..]);
      assert n[0] == ',' <==> IsSep(s[0]);
    }
    JoinSplit(Normalize(s), ',');
  }

  predicate IsNonEmpty(p: string) {
    p != []
  }

  /** On separator-free pieces, trimming changes nothing, so keeping the
      trimmed non-empty pieces is `filter(Boolean)`. */
  lemma {:induction false} KeptIsFilter(parts: seq<string>)
    requires forall i :: 0 <= i < |parts| ==> NoSep(parts[i])
    ensures Kept(parts) == Filter(parts, IsNonEmpty)
    decreases |parts|
  {
    if parts != [] {
      var n := |parts| - 1;
      var front, last := parts[..n], parts[n];
      assert forall i :: 0 <= i < |front| ==> front[i] == parts[i];
      KeptIsFilter(front);
      TrimUntouched(last);
      assert parts == front + [last];
      FilterAppend(front, [last], IsNonEmpty);
      assert [last][1..] == [];
      assert Filter([last], IsNonEmpty) == if last != [] then [last] else [];
    }
  }

  /** The hand-typed dates are the non-empty pieces of the text split at
      every separator character. */
  lemma TokensOfSplit(s: string)
    ensures Tokens(s) == Filter(Split(Normalize(s), ','), IsNonEmpty)
  {
    PiecesAreSplit(s);
    KeptIsFilter(Pieces(s));
  }

  /** The dates typed by hand, in order. */
  function Tokens(s: string): seq<string> {
    Kept(Pieces(s))
  }

  /** All pieces glued together. */
  function Concat(parts: seq<string>): string
    decreases |parts|
  {
    if parts == [] then [] else Concat(parts[..|parts| - 1]) + parts[|parts| - 1]
  }

  /** s with its separator characters removed. */
  function Unseparated(s: string): string
    decreases |s|
  {
    if s == [] then []
    else (if IsSep(s[0]) then [] else [s[0]]) + Unseparated(s[1..])
  }

  lemma {:induction false} ConcatCons(p: string, parts: seq<string>)
    ensures Concat([p] + parts) == p + Concat(parts)
    decreases |parts|
  {
    if parts != [] {
      var all := [p] + parts;
      assert all[..|all| - 1] == [p] + parts[..|parts| - 1];
      ConcatCons(p, parts[..|parts| - 1]);
    } else {
      assert ([p] + parts)[..0] == [];
    }
  }

  /** The pieces hold every character of s that is not a separator, in order. */
  lemma {:induction false} PiecesCover(s: string)
    ensures Concat(Pieces(s)) == Unseparated(s)
    decreases |s|
  {
    if s == [] {
      var one: seq<string> := [[]];
      assert one[..0] == [];
    } else {
      var rest := Pieces(s[1..]);
      PiecesCover(s[1..]);
      if IsSep(s[0]) {
        ConcatCons([], rest);
      } else {
        ConcatCons([s[0]] + rest[0], rest[1..]);
        ConcatCons(rest[0], rest[1..]);
        assert [rest[0]] + rest[1..] == rest;
      }
    }
  }

  /** Dropping the empty pieces of separator-free pieces keeps their characters. */
  lemma {:induction false} KeptCover(parts: seq<string>)
    requires forall i :: 0 <= i < |parts| ==> NoSep(parts[i])
    ensures Concat(Kept(parts)) == Concat(parts)
    ensures forall i :: 0 <= i < |Kept(parts)| ==> Kept(parts)[i] != [] && NoSep(Kept(parts)[i])
    decreases |parts|
  {
    if parts != [] {
      var front, last := parts[..|parts| - 1], parts[|parts| - 1];
      KeptCover(front);
      if last != [] {
        assert !IsSpace(last[0]) && !IsSpace(last[|last| - 1]) by { assert NoSep(last); }
      }
      TrimUntouched(last);
      var k := Kept(front);
      ConcatSnoc(k, last);
    }
  }

  lemma ConcatSnoc(parts: seq<string>, p: string)
    ensures Concat(parts + (if p != [] then [p] else [])) == Concat(parts) + p
  {
    if p != [] {
      assert (parts + [p])[..|parts|] == parts;
    } else {
      assert parts + [] == parts;
    }
  }

  /** Every token is non-empty and free of separators, and together the
      tokens hold exactly the non-separator characters of the text, in order. */
  lemma TokensSpec(s: string)
    ensures forall i :: 0 <= i < |Tokens(s)| ==> Tokens(s)[i] != [] && NoSep(Tokens(s)[i])
    ensures Concat(Tokens(s)) == Unseparated(s)
  {
    KeptCover(Pieces(s));
    PiecesCover(s);
  }

  /** `manualMap`: every hand-typed date, labelled "휴일". */
  method ManualMap(text: string) returns (out: map<string, string>)
    ensures out == Labelled(Tokens(text))
    ensures forall d :: d in out <==> d in Tokens(text)
    ensures forall d :: d in out ==> out[d] == DefaultLabel
  {
    var pieces := Pieces(text);
    out := map[];
    var i := 0;
    while i < |pieces|
      invariant 0 <= i <= |pieces|
      invariant out == Labelled(Kept(pieces[..i]))
    {
      LabelledSnoc(pieces, i);
      var d := Trim(pieces[i]);
      if d != [] {
        out := out[d := if d in out && out[d] != [] then out[d] else DefaultLabel];
      }
      i := i + 1;
    }
    assert pieces[..|pieces|] == pieces;
  }

  /** Every token labelled "휴일". */
  function Labelled(tokens: seq<string>): map<string, string> {
    map d | d in tokens :: DefaultLabel
  }

  /** One more piece labels its trimmed text too, unless that is empty. */
  lemma LabelledSnoc(pieces: seq<string>, i: nat)
    requires i < |pieces|
    ensures var t, before := Trim(pieces[i]), Labelled(Kept(pieces[..i]));
      Labelled(Kept(pieces[..i + 1])) == if t != [] then before[t := DefaultLabel] else before
  {
    assert pieces[..i + 1][..i] == pieces[..i];
  }

  // ---------------------------------------------------------------------
  // baseHolidayMap and imports

  /** `{ ...under, ...over }`: both maps' keys, the labels of `over` winning.
      `baseHolidayMap` spreads the imported map over the hand-typed one, and
      an import spreads the fetched map over the stored one. */
  function Spread(under: map<string, string>, over: map<string, string>): (m: map<string, string>)
    ensures m.Keys == under.Keys + over.Keys
    ensures forall k :: k in over ==> m[k] == over[k]
    ensures forall k :: k in under && k !in over ==> m[k] == under[k]
  {
    under + over
  }

  /** Importing the same calendar a second time changes nothing. */
  lemma SpreadIdempotent(prev: map<string, string>, fetched: map<string, string>)
    ensures Spread(Spread(prev, fetched), fetched) == Spread(prev, fetched)
  {
    var m := Spread(prev, fetched);
    assert Spread(m, fetched).Keys == m.Keys;
  }

  // ---------------------------------------------------------------------
  // The date of a key

  /** The year, month and day numbers of a key, as `const [y, m, dd] =
      d.split("-").map(Number)` binds them; a missing part is None. */
  function KeyPart(k: string, i: nat): Option<Option<int>> {
    var ns := KeyNumbers(k);
    if i < |ns| then Some(ns[i]) else None
  }

  /** `new Date(y, (m ?? 1) - 1, dd ?? 1)`, None when a part is NaN. The year
      is always there, since a split has at least one piece. */
  function KeyDate(k: string): (r: Option<Civil>)
    ensures r.Some? ==> Valid(r.value)
  {
    var y := KeyNumbers(k)[0];
    var m := KeyPart(k, 1).GetOr(Some(1));
    var d := KeyPart(k, 2).GetOr(Some(1));
    if y.Some? && m.Some? && d.Some? then Some(JsDate(y.value, m.value - 1, d.value)) else None
  }

  /** `keyOf` of an invalid date: every part of it is NaN. */
  const InvalidKey := "NaN-NaN-NaN"

  /** A key written from a date of year 100 or later reads back as that date. */
  lemma KeyDateOfKey(c: Civil)
    requires Valid(c) && c.year >= 100
    ensures KeyDate(Key(c)) == Some(c)
  {
    var k := Key(c);
    KeyRoundTrip(c);
    assert KeyNumbers(k)[0] == Some(c.year);
    assert KeyPart(k, 1) == Some(Some(c.month));
    assert KeyPart(k, 2) == Some(Some(c.day));
    assert JsYear(c.year) == c.year;
    JsDateInRange(c.year, c.month - 1, c.day);
  }

  // ---------------------------------------------------------------------
  // Derived days

  /** `/(설날|설|추석)/.test(name)`. The first alternative is covered by the
      second, so a label is lunar exactly when it contains 설 or 추석. */
  function IsLunar(name: string): (b: bool)
    ensures b == (Contains(name, "설") || Contains(name, "추석"))
  {
    ContainsPrefix(name, "설날", 1);
    assert "설날"[..1] == "설";
    Contains(name, "설날") || Contains(name, "설") || Contains(name, "추석")
  }

  /** `/어린이날/.test(name)`: the word anywhere in the label. */
  function IsChildrensDay(name: string): (b: bool)
    ensures b ==> |name| >= 4
    ensures StartsWith(name, "어린이날") ==> b
  {
    assert name[0..] == name;
    Contains(name, "어린이날")
  }

  /** The word may stand anywhere in the label, with anything around it. */
  lemma ChildrensDayAnywhere(before: string, after: string)
    ensures IsChildrensDay(before + "어린이날" + after)
  {
    var name := before + "어린이날" + after;
    assert StartsWith(name[|before|..], "어린이날") by {
      assert name[|before|..][..4] == "어린이날";
    }
  }

  /** `m === 5 && dd === 5`: both parts present and equal to 5. The year is
      not looked at; when it reads as a number, the key's date is the fifth
      of May of that year. */
  predicate IsMayFifth(k: string) {
    KeyPart(k, 1) == Some(Some(5)) && KeyPart(k, 2) == Some(Some(5))
  }

  /** A key that passes the 5-5 test and reads as a date reads as the fifth
      of May. */
  lemma MayFifthDate(k: string)
    ensures IsMayFifth(k) && KeyDate(k).Some? ==> KeyDate(k).value.month == 5 && KeyDate(k).value.day == 5
  {
    if IsMayFifth(k) && KeyDate(k).Some? {
      var y := KeyNumbers(k)[0];
      assert y.Some?;
      assert KeyDate(k) == Some(JsDate(y.value, 4, 5));
      JsDateInRange(y.value, 4, 5);
    }
  }

  /** The key of a date is keyed 5-5 exactly when the date is the fifth of May. */
  lemma MayFifthKey(c: Civil)
    requires Valid(c) && c.year >= 0
    ensures IsMayFifth(Key(c)) <==> c.month == 5 && c.day == 5
  {
    KeyRoundTrip(c);
  }

  /** The label of a hand-typed date is neither lunar nor 어린이날. */
  lemma DefaultLabelPlain()
    ensures !IsLunar(DefaultLabel) && !IsChildrensDay(DefaultLabel)
  {
    NotContains(DefaultLabel, "설");
    NotContains(DefaultLabel, "추석");
    NotContains(DefaultLabel, "어린이날");
  }

  /** The keys of the days before and after a date: `keyOf(addDays(base, ∓1))`. */
  function Neighbours(date: Option<Civil>): set<string>
    requires date.Some? ==> Valid(date.value)
  {
    if date.Some? then {Key(AddDays(date.value, -1)), Key(AddDays(date.value, 1))} else {InvalidKey}
  }

  /** The days a lunar holiday adds: its neighbours. An empty label adds nothing. */
  function LunarDays(k: string, name: string): set<string> {
    if name != [] && IsLunar(name) then Neighbours(KeyDate(k)) else {}
  }

  /** How many days after a day of weekday w the next Monday-to-Friday day comes. */
  function GapToWeekday(w: int): int {
    if w == 5 then 3 else if w == 6 then 2 else 1
  }

  /** `nextWeekday(dt)`: the first Monday-to-Friday day strictly after c. */
  function FirstWeekdayAfter(c: Civil): (r: Civil)
    requires Valid(c)
    ensures Valid(r)
  {
    AddDays(c, GapToWeekday(Weekday(c)))
  }

  /** The next weekday is a Monday to Friday, 1 to 3 days later, the one or
      two days in between are weekend days, and it follows a Sunday by one day and a
      Saturday by two. */
  lemma FirstWeekdayAfterSpec(c: Civil)
    requires Valid(c)
    ensures var r, gap := FirstWeekdayAfter(c), DayNumber(FirstWeekdayAfter(c)) - DayNumber(c);
      && 1 <= Weekday(r) <= 5
      && 1 <= gap <= 3
      && (gap >= 2 ==> IsWeekend(AddDays(c, 1)))
      && (gap == 3 ==> IsWeekend(AddDays(c, 2)))
      && (Weekday(c) == 0 ==> gap == 1)
      && (Weekday(c) == 6 ==> gap == 2)
  {
    var w := Weekday(c);
    var gap := GapToWeekday(w);
    WeekdayShift(c, gap);
    GapArith(w);
    WeekdayShift(c, 1);
    WeekdayShift(c, 2);
  }

  /** The weekday arithmetic behind `nextWeekday`, on weekday numbers. */
  lemma GapArith(w: int)
    requires 0 <= w < 7
    ensures var g := GapToWeekday(w);
      && 1 <= (w + g) % 7 <= 5
      && (g >= 2 ==> (w + 1) % 7 == 0 || (w + 1) % 7 == 6)
      && (g >= 3 ==> (w + 2) % 7 == 0 || (w + 2) % 7 == 6)
  {
  }

  /** Whether an entry earns a substitute day: a valid date that is a Sunday,
      or a weekend day labelled 어린이날 or keyed 5-5, or a weekend day with a
      lunar label. */
  predicate NeedsSubstitute(k: string, name: string) {
    var date := KeyDate(k);
    && date.Some?
    && (|| Weekday(date.value) == 0
        || ((IsChildrensDay(name) || IsMayFifth(k)) && IsWeekend(date.value))
        || (IsLunar(name) && IsWeekend(date.value)))
  }

  /** The substitute day an entry adds when the substitute rules are on. */
  function SubstituteDays(k: string, name: string, useAlt: bool): set<string> {
    if useAlt && NeedsSubstitute(k, name) then {Key(FirstWeekdayAfter(KeyDate(k).value))} else {}
  }

  /** What the entries with keys in ks derive under a rule from a key and
      its label. */
  function Derived(base: map<string, string>, ks: set<string>, rule: (string, string) -> set<string>): set<string>
    requires ks <= base.Keys
  {
    set k, x | k in ks && x in rule(k, base[k]) :: x
  }

  /** Taking one more entry into account adds exactly what it derives. */
  lemma DerivedAdd(base: map<string, string>, ks: set<string>, k: string, rule: (string, string) -> set<string>)
    requires ks <= base.Keys && k in base
    ensures Derived(base, ks + {k}, rule) == Derived(base, ks, rule) + rule(k, base[k])
  {
    var wider, parts := Derived(base, ks + {k}, rule), Derived(base, ks, rule) + rule(k, base[k]);
    forall x | x in wider ensures x in parts {
      var k' :| k' in ks + {k} && x in rule(k', base[k']);
      if k' != k {
        assert k' in ks;
      }
    }
    forall x | x in parts ensures x in wider {
      if x in Derived(base, ks, rule) {
        var k' :| k' in ks && x in rule(k', base[k']);
        assert k' in ks + {k};
      } else {
        assert k in ks + {k};
      }
    }
  }

  /** The days the lunar rule derives from the entries with keys in ks. */
  function LunarFrom(base: map<string, string>, ks: set<string>): set<string>
    requires ks <= base.Keys
  {
    Derived(base, ks, LunarDays)
  }

  /** The days the substitute rules derive from the entries with keys in ks. */
  function SubstituteFrom(base: map<string, string>, ks: set<string>, useAlt: bool): set<string>
    requires ks <= base.Keys
  {
    Derived(base, ks, SubstituteRule(useAlt))
  }

  /** The substitute rules as a rule over a key and its label. */
  function SubstituteRule(useAlt: bool): (string, string) -> set<string> {
    (k, name) => SubstituteDays(k, name, useAlt)
  }

  /** The red-day keys: the entries' own keys and what each entry derives. */
  function EffectiveSet(base: map<string, string>, useAlt: bool): set<string> {
    base.Keys + LunarFrom(base, base.Keys) + SubstituteFrom(base, base.Keys, useAlt)
  }

  /** `nextWeekday(dt)`: step forward one day, then on while the day is a
      Saturday or Sunday; the result is the first weekday after dt. */
  method NextWeekday(dt: Civil) returns (t: Civil)
    requires Valid(dt)
    ensures Valid(t) && t == FirstWeekdayAfter(dt)
  {
    t := AddDays(dt, 1);
    FirstWeekdayAfterSpec(dt);
    while IsWeekend(t)
      invariant Valid(t) && DayNumber(dt) < DayNumber(t) <= DayNumber(FirstWeekdayAfter(dt))
      decreases DayNumber(FirstWeekdayAfter(dt)) - DayNumber(t)
    {
      WeekendBeforeNext(dt, t);
      t := AddDays(t, 1);
    }
    StopsAtNext(dt, t);
  }

  /** A weekend day no later than the next weekday comes before it. */
  lemma WeekendBeforeNext(dt: Civil, t: Civil)
    requires Valid(dt) && Valid(t) && IsWeekend(t)
    requires DayNumber(t) <= DayNumber(FirstWeekdayAfter(dt))
    ensures DayNumber(t) < DayNumber(FirstWeekdayAfter(dt))
  {
    var r := FirstWeekdayAfter(dt);
    FirstWeekdayAfterSpec(dt);
    assert WeekdayOfNumber(DayNumber(t)) != WeekdayOfNumber(DayNumber(r));
  }

  /** The first day after dt, up to the next weekday, that is no weekend day
      is the next weekday. */
  lemma StopsAtNext(dt: Civil, t: Civil)
    requires Valid(dt) && Valid(t) && !IsWeekend(t)
    requires DayNumber(dt) < DayNumber(t) <= DayNumber(FirstWeekdayAfter(dt))
    ensures t == FirstWeekdayAfter(dt)
  {
    var r := FirstWeekdayAfter(dt);
    var n, m := DayNumber(dt), DayNumber(t);
    var gap := GapToWeekday(WeekdayOfNumber(n));
    assert DayNumber(r) == n + gap;
    NumbersStop(n, m);
    DayNumberInjective(t, r);
  }

  /** `nextWeekday` on day numbers: after day n, the first day up to
      n + gap whose weekday is Monday to Friday is n + gap itself. */
  lemma NumbersStop(n: int, m: int)
    requires var gap := GapToWeekday(WeekdayOfNumber(n));
      n < m <= n + gap && WeekdayOfNumber(m) != 0 && WeekdayOfNumber(m) != 6
    ensures m == n + GapToWeekday(WeekdayOfNumber(n))
  {
    var w := WeekdayOfNumber(n);
    WeekdayOfNumberShift(n, m - n);
    GapArith(w);
  }

  /** The lunar pass for one entry `[d, name]`: an empty label is skipped; a
      label naming 설날, 설 or 추석 adds the keys of the days either side of
      the entry's date, which are both `NaN-NaN-NaN` for a key that is not a
      date. */
  method AddLunarDays(s: set<string>, d: string, name: string) returns (s': set<string>)
    ensures s' == s + LunarDays(d, name)
  {
    s' := s;
    if name == [] {
      return;
    }
    if IsLunar(name) {
      var date := KeyDate(d);
      if date.Some? {
        s' := s' + {Key(AddDays(date.value, -1))} + {Key(AddDays(date.value, 1))};
      } else {
        s' := s' + {InvalidKey};
      }
    }
  }

  /** The substitute pass for one entry `[d, name]`: the first weekday after
      its date is added when the date is a Sunday, when it is a weekend day
      and the label names 어린이날 or the key's month and day are 5 and 5, and
      when it is a weekend day with a lunar label. A key that is not a date
      has no weekday and adds nothing. */
  method AddSubstitutes(s: set<string>, d: string, name: string) returns (s': set<string>)
    ensures s' == s + SubstituteDays(d, name, true)
  {
    s' := s;
    var date := KeyDate(d);
    if date.None? {
      return;
    }
    var dt := date.value;
    ghost var sub := Key(FirstWeekdayAfter(dt));
    ghost var fires := false;
    if Weekday(dt) == 0 {
      s' := AddNextWeekday(s', dt);
      AddedOnce(s, sub, fires);
      fires := true;
    }
    var childrens, mayFifth, lunar := IsChildrensDay(name), IsMayFifth(d), IsLunar(name);
    if childrens || mayFifth {
      if IsWeekend(dt) {
        s' := AddNextWeekday(s', dt);
        AddedOnce(s, sub, fires);
        fires := true;
      }
    }
    if lunar && IsWeekend(dt) {
      s' := AddNextWeekday(s', dt);
      AddedOnce(s, sub, fires);
      fires := true;
    }
    SubstituteDaysWhenNeeded(d, name, dt);
    AddedOnce(s, sub, false);
  }

  /** Adding the substitute day a second time changes nothing. */
  lemma AddedOnce(s: set<string>, sub: string, fires: bool)
    ensures (if fires then s + {sub} else s) + {sub} == s + {sub}
    ensures s + {} == s
  {
  }

  /** With the rules on, an entry with a date derives its first following
      weekday exactly when one of the three rules fires. */
  lemma SubstituteDaysWhenNeeded(k: string, name: string, dt: Civil)
    requires KeyDate(k) == Some(dt)
    ensures var fires := || Weekday(dt) == 0
                         || ((IsChildrensDay(name) || IsMayFifth(k)) && IsWeekend(dt))
                         || (IsLunar(name) && IsWeekend(dt));
      SubstituteDays(k, name, true) == if fires then {Key(FirstWeekdayAfter(dt))} else {}
  {
  }

  /** `set.add(keyOf(nextWeekday(date)))` */
  method AddNextWeekday(s: set<string>, dt: Civil) returns (s': set<string>)
    requires Valid(dt)
    ensures s' == s + {Key(FirstWeekdayAfter(dt))}
  {
    var t := NextWeekday(dt);
    s' := s + {Key(t)};
  }

  /** One step of a pass: adding what one more entry derives keeps the
      accumulated set equal to the start plus what the visited entries derive. */
  lemma PassStep(base: map<string, string>, s0: set<string>, before: set<string>, after: set<string>,
                 done: set<string>, d: string, rule: (string, string) -> set<string>)
    requires done <= base.Keys && d in base
    requires before == s0 + Derived(base, done, rule)
    requires after == before + rule(d, base[d])
    ensures after == s0 + Derived(base, done + {d}, rule)
  {
    DerivedAdd(base, done, d, rule);
  }

  /** The lunar pass over every entry of the base map, adding to s. */
  method LunarPass(base: map<string, string>, s0: set<string>) returns (s: set<string>)
    ensures s == s0 + LunarFrom(base, base.Keys)
  {
    s := s0;
    var todo := base.Keys;
    ghost var done: set<string> := {};
    while todo != {}
      invariant todo <= base.Keys && done == base.Keys - todo
      invariant s == s0 + Derived(base, done, LunarDays)
      decreases |todo|
    {
      var d :| d in todo;
      ghost var before := s;
      s := AddLunarDays(s, d, base[d]);
      PassStep(base, s0, before, s, done, d, LunarDays);
      todo := todo - {d};
      done := done + {d};
    }
  }

  /** The substitute pass over every entry of the base map, adding to s. */
  method SubstitutePass(base: map<string, string>, s0: set<string>) returns (s: set<string>)
    ensures s == s0 + SubstituteFrom(base, base.Keys, true)
  {
    s := s0;
    var todo := base.Keys;
    ghost var done: set<string> := {};
    while todo != {}
      invariant todo <= base.Keys && done == base.Keys - todo
      invariant s == s0 + Derived(base, done, SubstituteRule(true))
      decreases |todo|
    {
      var d :| d in todo;
      ghost var before := s;
      s := AddSubstitutes(s, d, base[d]);
      PassStep(base, s0, before, s, done, d, SubstituteRule(true));
      todo := todo - {d};
      done := done + {d};
    }
  }

  /** `effectiveHolidaySet`: every key of the base map, then what the lunar
      pass adds, then, when the substitute rules are on, what the substitute
      pass adds. */
  method EffectiveHolidaySet(base: map<string, string>, useAlt: bool) returns (s: set<string>)
    ensures s == EffectiveSet(base, useAlt)
  {
    s := LunarPass(base, base.Keys);
    if useAlt {
      s := SubstitutePass(base, s);
    } else {
      SubstitutesOff(base);
    }
  }

  /** With the substitute rules off, no entry derives a substitute day. */
  lemma SubstitutesOff(base: map<string, string>)
    ensures SubstituteFrom(base, base.Keys, false) == {}
  {
    forall k | k in base ensures SubstituteRule(false)(k, base[k]) == {} {
    }
  }

  // ---------------------------------------------------------------------
  // Properties of the red-day set

  /** A lunar holiday on a real date makes red both the day before and the
      day after, whether or not the substitute rules are on. */
  lemma LunarNeighboursIn(base: map<string, string>, k: string, c: Civil, useAlt: bool)
    requires k in base && base[k] != [] && IsLunar(base[k]) && KeyDate(k) == Some(c)
    ensures k in EffectiveSet(base, useAlt)
    ensures Key(AddDays(c, -1)) in EffectiveSet(base, useAlt)
    ensures Key(AddDays(c, 1)) in EffectiveSet(base, useAlt)
  {
    var ns := LunarDays(k, base[k]);
    assert Key(AddDays(c, -1)) in ns && Key(AddDays(c, 1)) in ns;
    assert ns <= LunarFrom(base, base.Keys);
  }

  /** With the substitute rules on, an entry that earns a substitute day
      makes red the first weekday after its date, which is a Monday to
      Friday. */
  lemma SubstituteIn(base: map<string, string>, k: string, c: Civil)
    requires k in base && NeedsSubstitute(k, base[k]) && KeyDate(k) == Some(c)
    ensures Key(FirstWeekdayAfter(c)) in EffectiveSet(base, true)
    ensures 1 <= Weekday(FirstWeekdayAfter(c)) <= 5
  {
    NextIsWeekday(c);
    SubstituteOfEntry(k, base[k], c);
    DerivedHas(base, base.Keys, SubstituteRule(true), k, Key(FirstWeekdayAfter(c)));
  }

  /** An entry that earns a substitute day derives the key of the first
      weekday after its date. */
  lemma SubstituteOfEntry(k: string, name: string, c: Civil)
    requires NeedsSubstitute(k, name) && KeyDate(k) == Some(c)
    ensures Key(FirstWeekdayAfter(c)) in SubstituteRule(true)(k, name)
  {
    assert SubstituteDays(k, name, true) == {Key(FirstWeekdayAfter(c))};
  }

  /** Every entry that earns a substitute day falls on a weekend, so its
      substitute day comes one day (after a Sunday) or two days (after a
      Saturday) later. */
  lemma SubstituteGap(k: string, name: string, c: Civil)
    requires NeedsSubstitute(k, name) && KeyDate(k) == Some(c)
    ensures IsWeekend(c)
    ensures DayNumber(FirstWeekdayAfter(c)) - DayNumber(c) == if Weekday(c) == 0 then 1 else 2
  {
    FirstWeekdayAfterSpec(c);
  }

  /** The next weekday is a Monday to Friday. */
  lemma NextIsWeekday(c: Civil)
    requires Valid(c)
    ensures 1 <= Weekday(FirstWeekdayAfter(c)) <= 5
  {
    FirstWeekdayAfterSpec(c);
  }

  /** What one entry derives is in what the entries derive. */
  lemma DerivedHas(base: map<string, string>, ks: set<string>, rule: (string, string) -> set<string>, k: string, x: string)
    requires ks <= base.Keys && k in ks && x in rule(k, base[k])
    ensures x in Derived(base, ks, rule)
  {
  }

  /** Turning the substitute rules off leaves the keys and the lunar days,
      and only removes days: the set without them is a subset of the set
      with them. */
  lemma AltToggle(base: map<string, string>)
    ensures EffectiveSet(base, false) == base.Keys + LunarFrom(base, base.Keys)
    ensures EffectiveSet(base, false) <= EffectiveSet(base, true)
  {
    SubstitutesOff(base);
  }

  /** What the substitute rules add is always the key of a Monday to Friday. */
  lemma SubstitutesAreWeekdays(base: map<string, string>, x: string)
    requires x in EffectiveSet(base, true) && x !in EffectiveSet(base, false)
    ensures exists c :: Valid(c) && 1 <= Weekday(c) <= 5 && x == Key(c)
  {
    AltToggle(base);
    assert x in SubstituteFrom(base, base.Keys, true);
    var k :| k in base.Keys && x in SubstituteRule(true)(k, base[k]);
    var c := KeyDate(k).value;
    FirstWeekdayAfterSpec(c);
    assert x == Key(FirstWeekdayAfter(c));
  }

  /** Without lunar labels and with the substitute rules off, the red days
      are exactly the keys of the base map. */
  lemma OnlyKeys(base: map<string, string>)
    requires forall k :: k in base ==> !IsLunar(base[k])
    ensures EffectiveSet(base, false) == base.Keys
  {
    AltToggle(base);
    forall k | k in base ensures LunarDays(k, base[k]) == {} {
    }
    assert LunarFrom(base, base.Keys) == {};
  }

  /** Dates typed by hand are labelled "휴일", so with the substitute rules off
      they mark exactly themselves and add no neighbouring days. */
  lemma HandTypedOnly(text: string)
    ensures EffectiveSet(Labelled(Tokens(text)), false) == set d | d in Tokens(text)
  {
    var base := Labelled(Tokens(text));
    DefaultLabelPlain();
    OnlyKeys(base);
  }

  /** Adding entries, without changing the labels of those already there,
      never takes a day out of the red-day set. */
  lemma EffectiveMonotone(small: map<string, string>, large: map<string, string>, useAlt: bool)
    requires forall k :: k in small ==> k in large && large[k] == small[k]
    ensures EffectiveSet(small, useAlt) <= EffectiveSet(large, useAlt)
  {
    forall x | x in LunarFrom(small, small.Keys) ensures x in LunarFrom(large, large.Keys) {
      var k :| k in small.Keys && x in LunarDays(k, small[k]);
      assert x in LunarDays(k, large[k]);
    }
    forall x | x in SubstituteFrom(small, small.Keys, useAlt)
      ensures x in SubstituteFrom(large, large.Keys, useAlt)
    {
      var k :| k in small.Keys && x in SubstituteRule(useAlt)(k, small[k]);
      assert x in SubstituteRule(useAlt)(k, large[k]);
    }
  }

  // ---------------------------------------------------------------------
  // Examples

  /** 추석 on Saturday 2025-09-06 (keyed "2025-09-06", see `KeyText`) makes
      the 5th and the 7th red too, whether or not the substitute rules are on. */
  lemma Chuseok2025(useAlt: bool)
    ensures var s := EffectiveSet(map[Key(Civil(2025, 9, 6)) := "추석"], useAlt);
      Key(Civil(2025, 9, 5)) in s && Key(Civil(2025, 9, 6)) in s && Key(Civil(2025, 9, 7)) in s
  {
    var c := Civil(2025, 9, 6);
    KeyDateOfKey(c);
    assert StartsWith("추석"[0..], "추석");
    assert AddDays(c, -1) == Civil(2025, 9, 5);
    assert AddDays(c, 1) == Civil(2025, 9, 7);
    LunarNeighboursIn(map[Key(c) := "추석"], Key(c), c, useAlt);
  }

  /** 2018-05-05 was a Saturday; the next weekday is Monday the 7th. (The
      year is a parameter fixed by the precondition, so that the verifier
      reasons about it symbolically.) */
  lemma May2018(y: int)
    requires y == 2018
    ensures Weekday(Civil(y, 5, 5)) == 6
    ensures FirstWeekdayAfter(Civil(y, 5, 5)) == Civil(y, 5, 7)
  {
    DaysBeforeYearClosed(y);
    DivUnique(y - 1, 4, 504, 1);
    DivUnique(y - 1, 100, 20, 17);
    DivUnique(y - 1, 400, 5, 17);
    DivUnique(1969, 4, 492, 1);
    DivUnique(1969, 100, 19, 69);
    DivUnique(1969, 400, 4, 369);
    assert DaysBeforeYear(y) == 17532;
    var c := Civil(y, 5, 5);
    assert DayNumber(c) == 17656;
    DivUnique(17660, 7, 2522, 6);
    assert Weekday(c) == 6;
  }

  /** The label 어린이날 names Children's Day and no lunar holiday. */
  lemma ChildrensDayLabel()
    ensures IsChildrensDay("어린이날") && !IsLunar("어린이날")
  {
    assert StartsWith("어린이날"[0..], "어린이날");
    NotContains("어린이날", "설날");
    NotContains("어린이날", "설");
    NotContains("어린이날", "추석");
  }

  /** 어린이날 on Saturday 2018-05-05 earns Monday 2018-05-07 as a substitute
      day exactly when the substitute rules are on. */
  lemma ChildrensDay2018()
    ensures Key(Civil(2018, 5, 7)) in EffectiveSet(map[Key(Civil(2018, 5, 5)) := "어린이날"], true)
    ensures Key(Civil(2018, 5, 7)) !in EffectiveSet(map[Key(Civil(2018, 5, 5)) := "어린이날"], false)
  {
    ChildrensDay2018On();
    ChildrensDay2018Off();
  }

  lemma ChildrensDay2018On()
    ensures Key(Civil(2018, 5, 7)) in EffectiveSet(map[Key(Civil(2018, 5, 5)) := "어린이날"], true)
  {
    var c := Civil(2018, 5, 5);
    var base := map[Key(c) := "어린이날"];
    KeyDateOfKey(c);
    May2018(2018);
    ChildrensDayLabel();
    assert NeedsSubstitute(Key(c), base[Key(c)]);
    SubstituteIn(base, Key(c), c);
  }

  lemma ChildrensDay2018Off()
    ensures Key(Civil(2018, 5, 7)) !in EffectiveSet(map[Key(Civil(2018, 5, 5)) := "어린이날"], false)
  {
    var c, monday := Civil(2018, 5, 5), Civil(2018, 5, 7);
    var base := map[Key(c) := "어린이날"];
    ChildrensDayLabel();
    OnlyKeys(base);
    KeyRoundTrip(c);
    KeyRoundTrip(monday);
  }
}
