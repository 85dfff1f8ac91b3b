/**
 * `hexToRgba`: a `#rgb` or `#rrggbb` colour as an `rgba(r, g, b, a)` CSS
 * colour. The hex text is read with `parseInt(…, 16)` and the channels are
 * taken from the 32-bit pattern of the result with `>>` and `& 255`, so text
 * that is not hex gives black.
 */
module Colors {
  import opened Wrappers
  import opened Text

  /** `s.replace("#", "")`: the first `#` removed, the rest kept. */
  function RemoveFirstHash(s: string): (r: string)
    ensures '#' !in s ==> r == s
    ensures |s| > 0 && s[0] == '#' ==> r == s[1..]
  {
    if s == [] then []
    else if s[0] == '#' then s[1..]
    else [s[0]] + RemoveFirstHash(s[1..])
  }

  /** Wherever the first `#` stands, it is that one that goes, and only it. */
  lemma {:induction false} RemoveFirstHashAt(s: string, i: nat)
    requires i < |s| && s[i] == '#' && '#' !in s[..i]
    ensures RemoveFirstHash(s) == s[..i] + s[i + 1..]
    decreases i
  {
    if i > 0 {
      assert s[0] == s[..i][0];
      var t := s[1..];
      assert t[..i - 1] == s[1..i];
      assert '#' !in t[..i - 1];
      RemoveFirstHashAt(t, i - 1);
      assert s[..i] == [s[0]] + t[..i - 1];
      assert s[i + 1..] == t[i..];
    }
  }

  /** `s.split("").map(c => c + c).join("")`: every character doubled. */
  function Doubled(s: string): (r: string)
    ensures |r| == 2 * |s|
    ensures forall i :: 0 <= i < |s| ==> r[2 * i] == s[i] && r[2 * i + 1] == s[i]
  {
    if s == [] then [] else [s[0], s[0]] + Doubled(s[1..])
  }

  /** `full`: three characters are doubled, anything else is kept. */
  function Expand(s: string): (r: string)
    ensures |s| == 3 ==> |r| == 6 && forall i :: 0 <= i < 6 ==> r[i] == s[i / 2]
    ensures |s| != 3 ==> r == s
  {
    if |s| == 3 then
      var r := Doubled(s);
      assert r[0] == s[0] && r[1] == s[0] && r[2] == s[1] && r[3] == s[1] && r[4] == s[2] && r[5] == s[2];
      r
    else s
  }

  predicate IsHexDigit(c: char) {
    ('0' <= c <= '9') || ('a' <= c <= 'f') || ('A' <= c <= 'F')
  }

  function HexDigitValue(c: char): (v: nat)
    requires IsHexDigit(c)
    ensures v < 16
  {
    if '0' <= c <= '9' then c as int - '0' as int
    else if 'a' <= c <= 'f' then c as int - 'a' as int + 10
    else c as int - 'A' as int + 10
  }

  predicate AllHex(s: string) {
    forall i :: 0 <= i < |s| ==> IsHexDigit(s[i])
  }

  /** The value of a string of hex digits, most significant first. */
  function HexValue(s: string): nat
    requires AllHex(s)
    decreases |s|
  {
    if s == [] then 0 else 16 * HexValue(s[..|s| - 1]) + HexDigitValue(s[|s| - 1])
  }

  /** The length of the longest prefix of s made of hex digits. */
  function HexRun(s: string): (n: nat)
    ensures n <= |s| && AllHex(s[..n])
    ensures n < |s| ==> !IsHexDigit(s[n])
  {
    if s != [] && IsHexDigit(s[0]) then
      var n := 1 + HexRun(s[1..]);
      assert s[..n] == [s[0]] + s[1..][..n - 1];
      n
    else 0
  }

  /** `parseInt(s, 16)`: leading white space skipped, then an optional sign,
      then an optional `0x` or `0X`, then the longest run of hex digits;
      None (NaN) when that run is empty. */
  function ParseHex(s: string): (r: Option<int>)
    ensures s != [] && AllHex(s) ==> r == Some(HexValue(s))
    ensures s != [] && !IsHexDigit(s[0]) && !IsSpace(s[0]) && s[0] != '-' && s[0] != '+' ==> r == None
  {
    var t := s[SkipSpace(s, 0)..];
    assert s != [] && !IsSpace(s[0]) ==> t == s by {
      if s != [] && !IsSpace(s[0]) {
        assert SkipSpace(s, 0) == 0;
      }
    }
    var negative := |t| > 0 && t[0] == '-';
    var u := if |t| > 0 && (t[0] == '-' || t[0] == '+') then t[1..] else t;
    var w := if |u| >= 2 && u[0] == '0' && (u[1] == 'x' || u[1] == 'X') then u[2..] else u;
    assert s != [] && AllHex(s) ==> w == s && !negative by {
      if s != [] && AllHex(s) {
        assert IsHexDigit(s[0]);
        assert |s| >= 2 ==> IsHexDigit(s[1]);
      }
    }
    HexRunAll(w);
    var n := HexRun(w);
    assert n == |w| ==> w[..n] == w;
    if n == 0 then None
    else
      var v: int := HexValue(w[..n]);
      Some(if negative then -v else v)
  }

  /** The 32-bit pattern `>>` and `&` work on: NaN is 0, other integers are
      taken modulo 2^32. */
  function Bits32(v: Option<int>): (b: int)
    ensures 0 <= b < 0x1_0000_0000
    ensures v.None? ==> b == 0
    ensures v.Some? ==> (b - v.value) % 0x1_0000_0000 == 0
  {
    if v.None? then 0
    else
      var x := v.value;
      var q := x / 0x1_0000_0000;
      assert x == 0x1_0000_0000 * q + x % 0x1_0000_0000;
      assert x % 0x1_0000_0000 - x == 0x1_0000_0000 * -q;
      x % 0x1_0000_0000
  }

  /** `(v >> shift) & 255` on the 32-bit pattern b: its byte at that shift. */
  function ByteAt(b: int, shift: nat): (r: int)
    requires 0 <= b < 0x1_0000_0000 && shift in {0, 8, 16}
    ensures 0 <= r < 256
  {
    var p := if shift == 0 then 1 else if shift == 8 then 0x100 else 0x1_0000;
    (b / p) % 256
  }

  datatype Rgb = Rgb(r: int, g: int, b: int)

  /** The channels `hexToRgba` writes out for a colour text. */
  function HexToRgb(hex: string): (c: Rgb)
    ensures 0 <= c.r < 256 && 0 <= c.g < 256 && 0 <= c.b < 256
  {
    var bits := Bits32(ParseHex(Expand(RemoveFirstHash(hex))));
    Rgb(ByteAt(bits, 16), ByteAt(bits, 8), ByteAt(bits, 0))
  }

  /** `hexToRgba(hex, a)`, with the alpha already written as text. */
  function HexToRgba(hex: string, alpha: string): string {
    var c := HexToRgb(hex);
    "rgba(" + NatToString(c.r) + ", " + NatToString(c.g) + ", " + NatToString(c.b) + ", " + alpha + ")"
  }

  /** A hex value splits at any point into its high and low digits. */
  lemma {:induction false} HexValueAppend(a: string, b: string)
    requires AllHex(a) && AllHex(b)
    ensures AllHex(a + b)
    ensures HexValue(a + b) == HexValue(a) * Pow16(|b|) + HexValue(b)
    decreases |b|
  {
    var s := a + b;
    if b == [] {
      assert s == a;
    } else {
      var b' := b[..|b| - 1];
      var d := HexDigitValue(b[|b| - 1]);
      assert s[..|s| - 1] == a + b';
      assert s[|s| - 1] == b[|b| - 1];
      HexValueAppend(a, b');
      var x, p := HexValue(a), Pow16(|b'|);
      assert HexValue(s) == 16 * (x * p + HexValue(b')) + d;
      assert HexValue(b) == 16 * HexValue(b') + d;
      assert Pow16(|b|) == 16 * p;
      MulSixteen(x, p);
    }
  }

  lemma MulSixteen(x: int, p: int)
    ensures x * (16 * p) == 16 * (x * p)
  {
  }

  function Pow16(n: nat): (p: nat)
    ensures p >= 1
  {
    if n == 0 then 1 else 16 * Pow16(n - 1)
  }

  /** The byte written as the two hex digits hi and lo. */
  function HexByte(hi: char, lo: char): int
    requires IsHexDigit(hi) && IsHexDigit(lo)
  {
    16 * HexDigitValue(hi) + HexDigitValue(lo)
  }

  /** Two hex digits make one byte. */
  lemma ByteOfTwo(s: string)
    requires |s| == 2 && AllHex(s)
    ensures HexValue(s) == HexByte(s[0], s[1]) < 256
  {
    var first := s[..1];
    assert first[..|first| - 1] == [] && first[|first| - 1] == s[0];
    var h := HexValue(first);
    assert h == 16 * HexValue([]) + HexDigitValue(s[0]);
    assert HexValue(s) == 16 * h + HexDigitValue(s[1]);
  }

  /** Six hex digits hold three bytes, most significant first. */
  lemma SixValue(six: string)
    requires |six| == 6 && AllHex(six)
    ensures HexValue(six) == (HexValue(six[..2]) * 256 + HexValue(six[2..4])) * 256 + HexValue(six[4..])
  {
    var hi, mid, lo := six[..2], six[2..4], six[4..];
    assert six[..4] == hi + mid && six == six[..4] + lo;
    assert Pow16(2) == 256;
    HexValueAppend(hi, mid);
    HexValueAppend(six[..4], lo);
  }

  /** `#rrggbb`: the three channels are the values of the three pairs of
      hex digits. */
  lemma SixDigits(six: string)
    requires |six| == 6 && AllHex(six)
    ensures HexToRgb("#" + six) == Rgb(HexByte(six[0], six[1]), HexByte(six[2], six[3]), HexByte(six[4], six[5]))
  {
    var hi, mid, lo := six[..2], six[2..4], six[4..];
    ByteOfTwo(hi);
    ByteOfTwo(mid);
    ByteOfTwo(lo);
    var v := HexValue(six);
    SixValue(six);
    ChannelsOf(v, HexValue(hi), HexValue(mid), HexValue(lo));
    assert RemoveFirstHash("#" + six) == six;
    assert Expand(six) == six;
  }

  /** A string of hex digits is a run of hex digits from end to end. */
  lemma {:induction false} HexRunAll(s: string)
    ensures AllHex(s) ==> HexRun(s) == |s|
  {
    if s != [] {
      HexRunAll(s[1..]);
    }
  }

  /** The bytes of v = r * 65536 + g * 256 + b are r, g and b. */
  lemma ChannelsOf(v: int, r: int, g: int, b: int)
    requires 0 <= r < 256 && 0 <= g < 256 && 0 <= b < 256
    requires v == (r * 256 + g) * 256 + b
    ensures 0 <= v < 0x1_0000_0000 && Bits32(Some(v)) == v
    ensures ByteAt(v, 16) == r && ByteAt(v, 8) == g && ByteAt(v, 0) == b
  {
    assert v / 0x1_0000 == r;
    assert v / 0x100 == r * 256 + g;
  }

  /** `#rgb` is read as `#rrggbb`. */
  lemma ThreeDigits(three: string)
    requires |three| == 3
    ensures HexToRgb("#" + three) == HexToRgb("#" + Doubled(three))
  {
    assert RemoveFirstHash("#" + three) == three;
    assert RemoveFirstHash("#" + Doubled(three)) == Doubled(three);
  }

  /** Text that does not start with a hex digit, a sign or white space
      after the `#` gives black. */
  lemma NotHexIsBlack(s: string)
    requires |s| > 0 && !IsHexDigit(s[0]) && !IsSpace(s[0]) && s[0] != '-' && s[0] != '+' && |s| != 3
    ensures HexToRgb("#" + s) == Rgb(0, 0, 0)
  {
    assert RemoveFirstHash("#" + s) == s;
  }
}
