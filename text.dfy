/**
 * The JavaScript string operations the planner's helpers are built from:
 * `trim`, `startsWith`, `includes`, `split`/`join` on a single character,
 * `filter` on an array, `String(n)` of a whole number and `Number(s)` of a
 * decimal string.
 */
module Text {
  import opened Wrappers

  /** White space as `String.prototype.trim` and the regular-expression class
      `\s` see it: the WhiteSpace and LineTerminator characters of ECMA-262. */
  predicate IsSpace(c: char) {
    || c == ' ' || c == '\t' || c == '\n' || c == '\r'
    || c == '\U{000B}' || c == '\U{000C}' || c == '\U{00A0}' || c == '\U{FEFF}'
    || c == '\U{1680}' || ('\U{2000}' <= c <= '\U{200A}')
    || c == '\U{2028}' || c == '\U{2029}' || c == '\U{202F}' || c == '\U{205F}'
    || c == '\U{3000}'
  }

  /** Every character of s from index lo up to hi is white space. */
  predicate SpaceBetween(s: string, lo: int, hi: int)
    requires 0 <= lo && hi <= |s|
  {
    forall k :: lo <= k < hi ==> IsSpace(s[k])
  }

  predicate AllSpace(s: string) {
    SpaceBetween(s, 0, |s|)
  }

  /** The index of the first character at or after `from` that is not white space. */
  function SkipSpace(s: string, from: nat): (i: nat)
    requires from <= |s|
    ensures from <= i <= |s| && SpaceBetween(s, from, i)
    ensures i < |s| ==> !IsSpace(s[i])
    decreases |s| - from
  {
    if from < |s| && IsSpace(s[from]) then SkipSpace(s, from + 1) else from
  }

  /** The end of s[lo..hi] once its trailing white space is cut off. */
  function CutSpace(s: string, lo: nat, hi: nat): (j: nat)
    requires lo <= hi <= |s|
    ensures lo <= j <= hi && SpaceBetween(s, j, hi)
    ensures j > lo ==> !IsSpace(s[j - 1])
    decreases hi - lo
  {
    if hi > lo && IsSpace(s[hi - 1]) then CutSpace(s, lo, hi - 1) else hi
  }

  /** `s.trim()`: the middle of `s` between a run of leading and a run of
      trailing white space; it neither starts nor ends with white space. */
  function Trim(s: string): (r: string)
    ensures r == [] || (!IsSpace(r[0]) && !IsSpace(r[|r| - 1]))
    ensures exists i :: 0 <= i <= |s| - |r| && r == s[i..i + |r|] && SpaceBetween(s, 0, i) && SpaceBetween(s, i + |r|, |s|)
  {
    var i := SkipSpace(s, 0);
    var j := CutSpace(s, i, |s|);
    assert j < |s| ==> SpaceBetween(s, j, |s|);
    s[i..j]
  }

  /** `!s.trim()` holds exactly when `s` is empty or all white space. */
  lemma TrimBlank(s: string)
    ensures Trim(s) == [] <==> AllSpace(s)
  {
    var i := SkipSpace(s, 0);
    var j := CutSpace(s, i, |s|);
    assert Trim(s) == s[i..j];
    if i < j {
      assert Trim(s)[0] == s[i];
    }
  }

  /** Trimming a string that neither starts nor ends with white space leaves it as it is. */
  lemma TrimUntouched(s: string)
    requires s == [] || (!IsSpace(s[0]) && !IsSpace(s[|s| - 1]))
    ensures Trim(s) == s
  {
  }

  /** Trimming twice is trimming once. */
  lemma TrimIdempotent(s: string)
    ensures Trim(Trim(s)) == Trim(s)
  {
    TrimUntouched(Trim(s));
  }

  /** `s.startsWith(prefix)` */
  predicate StartsWith(s: string, prefix: string) {
    |prefix| <= |s| && s[..|prefix|] == prefix
  }

  /** `s.includes(part)`, and also `/part/.test(s)` for a pattern without metacharacters. */
  predicate Contains(s: string, part: string) {
    exists i :: 0 <= i <= |s| && StartsWith(s[i..], part)
  }

  /** A text without the first character of a nonempty part does not contain it. */
  lemma NotContains(s: string, part: string)
    requires |part| > 0 && part[0] !in s
    ensures !Contains(s, part)
  {
    forall i | 0 <= i <= |s| ensures !StartsWith(s[i..], part) {
      if i < |s| && |part| <= |s[i..]| {
        assert s[i] != part[0];
        assert s[i..][..|part|][0] == s[i];
      }
    }
  }

  /** `s.split(sep)` for a one-character separator: the pieces between
      separators, at least one piece, none containing the separator. */
  function Split(s: string, sep: char): (parts: seq<string>)
    ensures |parts| >= 1
    ensures forall p :: p in parts ==> sep !in p
    decreases |s|
  {
    if s == [] then [[]]
    else
      var rest := Split(s[1..], sep);
      if s[0] == sep then [[]] + rest
      else
        assert rest[0] in rest;
        [[s[0]] + rest[0]] + rest[1..]
  }

  /** `parts.join(sep)` */
  function Join(parts: seq<string>, sep: char): string
    decreases |parts|
  {
    if parts == [] then []
    else if |parts| == 1 then parts[0]
    else parts[0] + [sep] + Join(parts[1..], sep)
  }

  /** Joining the pieces of a split gives back the string. */
  lemma {:induction false} JoinSplit(s: string, sep: char)
    ensures Join(Split(s, sep), sep) == s
    decreases |s|
  {
    if s != [] {
      var rest := Split(s[1..], sep);
      JoinSplit(s[1..], sep);
      if s[0] == sep {
        JoinCons([], rest, sep);
        assert [] + [sep] + s[1..] == s;
      } else if |rest| == 1 {
        assert [s[0]] + s[1..] == s;
      } else {
        var tail := rest[1..];
        assert [rest[0]] + tail == rest;
        JoinCons(rest[0], tail, sep);
        JoinCons([s[0]] + rest[0], tail, sep);
        assert [s[0]] + s[1..] == s;
      }
    }
  }

  /** A character the string lacks is in none of its pieces. */
  lemma {:induction false} SplitWithoutChar(s: string, sep: char, x: char)
    requires x !in s
    ensures forall p :: p in Split(s, sep) ==> x !in p
    decreases |s|
  {
    if s != [] {
      assert x !in s[1..] by {
        assert forall i :: 0 <= i < |s[1..]| ==> s[1..][i] == s[i + 1];
      }
      SplitWithoutChar(s[1..], sep, x);
    }
  }

  lemma JoinCons(p: string, parts: seq<string>, sep: char)
    requires |parts| >= 1
    ensures Join([p] + parts, sep) == p + [sep] + Join(parts, sep)
  {
    assert ([p] + parts)[1..] == parts;
  }

  /** A string without the separator splits into itself alone. */
  lemma {:induction false} SplitWithoutSep(s: string, sep: char)
    requires sep !in s
    ensures Split(s, sep) == [s]
    decreases |s|
  {
    if s != [] {
      assert sep !in s[1..] by { assert forall k :: 0 <= k < |s| - 1 ==> s[1..][k] == s[k + 1]; }
      SplitWithoutSep(s[1..], sep);
      assert [s[0]] + s[1..] == s;
    }
  }

  /** Splitting at the first separator peels off the text before it. */
  lemma {:induction false} SplitAtFirst(a: string, sep: char, t: string)
    requires sep !in a
    ensures Split(a + [sep] + t, sep) == [a] + Split(t, sep)
    decreases |a|
  {
    var s := a + [sep] + t;
    if a == [] {
      assert s[1..] == t;
    } else {
      assert s[1..] == a[1..] + [sep] + t;
      assert sep !in a[1..] by { assert forall k :: 0 <= k < |a| - 1 ==> a[1..][k] == a[k + 1]; }
      SplitAtFirst(a[1..], sep, t);
      assert [a[0]] + a[1..] == a;
    }
  }

  /** A separator-free tail after a last separator is the last piece. */
  lemma {:induction false} SplitAtLast(a: string, sep: char, t: string)
    requires sep !in t
    ensures Split(a + [sep] + t, sep) == Split(a, sep) + [t]
    decreases |a|
  {
    var s := a + [sep] + t;
    if a == [] {
      assert s[1..] == t;
      SplitWithoutSep(t, sep);
    } else {
      assert s[1..] == a[1..] + [sep] + t;
      SplitAtLast(a[1..], sep, t);
      var front := Split(a[1..], sep);
      if a[0] != sep {
        assert (front + [t])[1..] == front[1..] + [t];
      }
    }
  }

  /** Splitting the join of separator-free pieces gives back the pieces. */
  lemma {:induction false} SplitJoin(parts: seq<string>, sep: char)
    requires |parts| >= 1
    requires forall p :: p in parts ==> sep !in p
    ensures Split(Join(parts, sep), sep) == parts
    decreases |parts|
  {
    if |parts| == 1 {
      SplitWithoutSep(parts[0], sep);
    } else {
      assert parts[0] in parts;
      assert forall p :: p in parts[1..] ==> p in parts;
      SplitJoin(parts[1..], sep);
      SplitAtFirst(parts[0], sep, Join(parts[1..], sep));
      assert [parts[0]] + parts[1..] == parts;
    }
  }

  /** The last of several joined pieces follows a separator. */
  lemma {:induction false} JoinLast(parts: seq<string>, sep: char)
    requires |parts| >= 2
    ensures Join(parts, sep) == Join(parts[..|parts| - 1], sep) + [sep] + parts[|parts| - 1]
    decreases |parts|
  {
    if |parts| > 2 {
      JoinLast(parts[1..], sep);
      assert parts[1..][..|parts| - 2] == parts[..|parts| - 1][1..];
    }
  }

  /** `s.split(sep).pop()` */
  function AfterLast(s: string, sep: char): string {
    var parts := Split(s, sep);
    parts[|parts| - 1]
  }

  /** `s.split(sep).slice(1).join(sep)` */
  function AfterFirst(s: string, sep: char): string {
    Join(Split(s, sep)[1..], sep)
  }

  /** The last piece of a split is the text after the last separator, or the
      whole string when it has no separator. */
  lemma AfterLastSpec(s: string, sep: char)
    ensures var r := AfterLast(s, sep);
      && sep !in r && |r| <= |s| && s[|s| - |r|..] == r
      && (sep in s ==> |r| < |s| && s[|s| - |r| - 1] == sep)
      && (sep !in s ==> r == s)
  {
    var parts := Split(s, sep);
    var r := parts[|parts| - 1];
    assert r in parts;
    JoinSplit(s, sep);
    if |parts| == 1 {
      assert s == r;
    } else {
      JoinLast(parts, sep);
      var front := Join(parts[..|parts| - 1], sep);
      assert s == front + [sep] + r;
      assert s[|front|] == sep;
      assert s[|s| - |r|..] == r;
    }
  }

  /** All pieces but the first, joined again, are the text after the first
      separator (separators inside it kept); without a separator they are "". */
  lemma AfterFirstSpec(s: string, sep: char)
    ensures var r := AfterFirst(s, sep);
      && (sep in s ==> |r| < |s| && s == s[..|s| - |r| - 1] + [sep] + r && sep !in s[..|s| - |r| - 1])
      && (sep !in s ==> r == [])
  {
    var parts := Split(s, sep);
    var r := AfterFirst(s, sep);
    JoinSplit(s, sep);
    assert parts[0] in parts;
    if |parts| == 1 {
      assert s == parts[0];
    } else {
      assert s == parts[0] + [sep] + r;
      assert s[..|s| - |r| - 1] == parts[0];
    }
  }

  /** A text containing a part contains every prefix of that part. */
  lemma ContainsPrefix(s: string, part: string, k: nat)
    requires k <= |part|
    ensures Contains(s, part) ==> Contains(s, part[..k])
  {
    if Contains(s, part) {
      var i :| 0 <= i <= |s| && StartsWith(s[i..], part);
      assert s[i..][..k] == part[..k];
      assert StartsWith(s[i..], part[..k]);
    }
  }

  // ---------------------------------------------------------------------
  // Lists

  /** `xs.filter(keep)`: the elements that pass, in their order. */
  function Filter<T(!new)>(xs: seq<T>, keep: T -> bool): (r: seq<T>)
    ensures |r| <= |xs|
    ensures forall x :: x in r <==> x in xs && keep(x)
  {
    if xs == [] then []
    else (if keep(xs[0]) then [xs[0]] else []) + Filter(xs[1..], keep)
  }

  /** Filtering keeps the whole list when every element passes. */
  lemma {:induction false} FilterAll<T(!new)>(xs: seq<T>, keep: T -> bool)
    ensures (forall x :: x in xs ==> keep(x)) ==> Filter(xs, keep) == xs
  {
    if xs != [] {
      FilterAll(xs[1..], keep);
    }
  }

  /** Filtering keeps the length exactly when every element passes. */
  lemma {:induction false} FilterLength<T(!new)>(xs: seq<T>, keep: T -> bool)
    ensures |Filter(xs, keep)| == |xs| <==> forall x :: x in xs ==> keep(x)
  {
    if xs != [] {
      FilterLength(xs[1..], keep);
      assert forall x :: x in xs <==> x == xs[0] || x in xs[1..];
    }
  }

  /** Filtering a concatenation filters each part. */
  lemma {:induction false} FilterAppend<T(!new)>(xs: seq<T>, ys: seq<T>, keep: T -> bool)
    ensures Filter(xs + ys, keep) == Filter(xs, keep) + Filter(ys, keep)
  {
    if xs == [] {
      assert xs + ys == ys;
    } else {
      assert (xs + ys)[1..] == xs[1..] + ys;
      FilterAppend(xs[1..], ys, keep);
    }
  }

  /** Filtering twice with the same test is filtering once. */
  lemma FilterTwice<T(!new)>(xs: seq<T>, keep: T -> bool)
    ensures Filter(Filter(xs, keep), keep) == Filter(xs, keep)
  {
    FilterAll(Filter(xs, keep), keep);
  }

  // ---------------------------------------------------------------------
  // Numbers

  predicate IsDigit(c: char) {
    '0' <= c <= '9'
  }

  predicate AllDigits(s: string) {
    forall i :: 0 <= i < |s| ==> IsDigit(s[i])
  }

  /** The value of a string of decimal digits, read most significant first. */
  function DigitsValue(s: string): nat
    requires AllDigits(s)
    decreases |s|
  {
    if s == [] then 0 else 10 * DigitsValue(s[..|s| - 1]) + (s[|s| - 1] as int - '0' as int)
  }

  /** `String(n)` for a whole number n >= 0: its decimal digits without
      leading zeros, which read back as n. */
  function NatToString(n: nat): (s: string)
    ensures 1 <= |s| && AllDigits(s)
    ensures DigitsValue(s) == n
    ensures s[0] == '0' ==> n == 0
    ensures n < 10 ==> |s| == 1
    ensures 10 <= n < 100 ==> |s| == 2
    decreases n
  {
    var last := ('0' as int + n % 10) as char;
    if n < 10 then [last]
    else
      var front := NatToString(n / 10);
      var s := front + [last];
      assert s[..|s| - 1] == front;
      s
  }

  /** `String(n)` for any integer. */
  function IntToString(n: int): string {
    if n < 0 then "-" + NatToString(-n) else NatToString(n)
  }

  /** `Number(s)`, restricted to what the planner feeds it: an unsigned
      decimal integer, possibly surrounded by white space, or nothing but
      white space (which is 0). Every other string is NaN, here None. */
  function JsNumber(s: string): (r: Option<int>)
    ensures Trim(s) == [] ==> r == Some(0)
    ensures r.Some? ==> r.value >= 0
    ensures r.None? <==> exists i :: 0 <= i < |Trim(s)| && !IsDigit(Trim(s)[i])
    ensures AllDigits(Trim(s)) ==> r == Some(DigitsValue(Trim(s)))
  {
    var t := Trim(s);
    if t == [] then Some(0)
    else if AllDigits(t) then Some(DigitsValue(t))
    else None
  }

  /** `Number(String(n)) === n` for a whole number n. */
  lemma NumberOfString(n: nat)
    ensures JsNumber(NatToString(n)) == Some(n)
  {
    var s := NatToString(n);
    assert !IsSpace(s[0]) && !IsSpace(s[|s| - 1]) by { assert IsDigit(s[0]) && IsDigit(s[|s| - 1]); }
    TrimUntouched(s);
  }
}
