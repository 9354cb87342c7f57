/**
 The C# client's timestamp: `DateTime.ToString("yyyy-MM-ddTHH:mm:ssZ")` on a
 UTC date-time. The year is padded to four digits, every other field to two,
 `-`, `T`, `:` and `Z` are copied literally and anything below a second is
 dropped. A parser for the same pattern shows the format loses nothing else.
 */
module Timestamps {
  import opened Options

  /** A proleptic Gregorian UTC date-time; `ticks` counts 100 ns units within the second. */
  datatype DateTime = DateTime(
    year: int, month: int, day: int,
    hour: int, minute: int, second: int,
    ticks: int)
  {
    /** The range .NET's `DateTime` can hold. */
    predicate Valid()
    {
      && 1 <= year <= 9999
      && 1 <= month <= 12
      && 1 <= day <= DaysInMonth(year, month)
      && 0 <= hour < 24
      && 0 <= minute < 60
      && 0 <= second < 60
      && 0 <= ticks < 10_000_000
    }

    /** The same instant with the sub-second part cut off. */
    function WholeSeconds(): DateTime
    {
      this.(ticks := 0)
    }
  }

  predicate IsLeapYear(y: int)
  {
    y % 4 == 0 && (y % 100 != 0 || y % 400 == 0)
  }

  function DaysInMonth(y: int, m: int): int
  {
    if m == 2 then (if IsLeapYear(y) then 29 else 28)
    else if m == 4 || m == 6 || m == 9 || m == 11 then 30
    else 31
  }

  predicate IsDigit(c: char) { '0' <= c <= '9' }

  predicate AllDigits(s: string)
  {
    forall i :: 0 <= i < |s| ==> IsDigit(s[i])
  }

  function Pow10(n: nat): (r: nat)
    ensures r >= 1
  {
    if n == 0 then 1 else 10 * Pow10(n - 1)
  }

  function DigitChar(d: nat): (c: char)
    requires d < 10
    ensures IsDigit(c)
  {
    ('0' as int + d) as char
  }

  /** `n` written in decimal with exactly `width` digits, leading zeros included. */
  function PadDigits(n: nat, width: nat): (r: string)
    requires n < Pow10(width)
    ensures |r| == width
    ensures AllDigits(r)
  {
    if width == 0 then ""
    else PadDigits(n / 10, width - 1) + [DigitChar(n % 10)]
  }

  /** The number a string of decimal digits denotes. */
  function DigitsValue(s: string): (n: nat)
    requires AllDigits(s)
    ensures n < Pow10(|s|)
  {
    if |s| == 0 then 0
    else
      var init := DigitsValue(s[..|s| - 1]);
      var d := s[|s| - 1] as int - '0' as int;
      assert init * 10 + d < Pow10(|s|) by {
        assert init + 1 <= Pow10(|s| - 1);
        assert (init + 1) * 10 <= Pow10(|s| - 1) * 10;
      }
      init * 10 + d
  }

  /** Reading back a padded number gives the number. */
  lemma {:induction false} DigitsValuePad(n: nat, width: nat)
    requires n < Pow10(width)
    ensures DigitsValue(PadDigits(n, width)) == n
  {
    if width > 0 {
      var r := PadDigits(n, width);
      assert r[..|r| - 1] == PadDigits(n / 10, width - 1);
      DigitsValuePad(n / 10, width - 1);
    }
  }

  /** Padding the value of a digit string gives the digit string. */
  lemma {:induction false} PadDigitsValue(s: string)
    requires AllDigits(s)
    ensures PadDigits(DigitsValue(s), |s|) == s
  {
    if |s| > 0 {
      var init := s[..|s| - 1];
      var d := s[|s| - 1] as int - '0' as int;
      var n := DigitsValue(s);
      assert n == DigitsValue(init) * 10 + d;
      assert n / 10 == DigitsValue(init) && n % 10 == d;
      PadDigitsValue(init);
      assert s == init + [s[|s| - 1]];
    }
  }

  /** The positions of the pattern's literal characters. */
  const SeparatorPositions: set<int> := {4, 7, 10, 13, 16, 19}

  /** The pattern's fields in place, with its literal characters between them. */
  function Layout(year: string, month: string, day: string, hour: string, minute: string, second: string): string
  {
    year + "-" + month + "-" + day + "T" + hour + ":" + minute + ":" + second + "Z"
  }

  /** Where each field of the layout lands. */
  lemma LayoutFields(year: string, month: string, day: string, hour: string, minute: string, second: string)
    requires |year| == 4 && |month| == 2 && |day| == 2 && |hour| == 2 && |minute| == 2 && |second| == 2
    ensures var r := Layout(year, month, day, hour, minute, second);
      && |r| == 20
      && r[0..4] == year && r[5..7] == month && r[8..10] == day
      && r[11..13] == hour && r[14..16] == minute && r[17..19] == second
      && r[4] == '-' && r[7] == '-' && r[10] == 'T' && r[13] == ':' && r[16] == ':' && r[19] == 'Z'
  {
  }

  /** A string with the pattern's literal characters in place is the layout of its own fields. */
  lemma LayoutOfSlices(s: string)
    requires |s| == 20
    requires s[4] == '-' && s[7] == '-' && s[10] == 'T' && s[13] == ':' && s[16] == ':' && s[19] == 'Z'
    ensures s == Layout(s[0..4], s[5..7], s[8..10], s[11..13], s[14..16], s[17..19])
  {
    var r := Layout(s[0..4], s[5..7], s[8..10], s[11..13], s[14..16], s[17..19]);
    LayoutFields(s[0..4], s[5..7], s[8..10], s[11..13], s[14..16], s[17..19]);
    forall i | 0 <= i < 20
      ensures r[i] == s[i]
    {
      if i < 4 { assert r[i] == r[0..4][i]; }
      else if 4 < i < 7 { assert r[i] == r[5..7][i - 5]; }
      else if 7 < i < 10 { assert r[i] == r[8..10][i - 8]; }
      else if 10 < i < 13 { assert r[i] == r[11..13][i - 11]; }
      else if 13 < i < 16 { assert r[i] == r[14..16][i - 14]; }
      else if 16 < i < 19 { assert r[i] == r[17..19][i - 17]; }
    }
  }

  /** `t` rendered with the pattern `yyyy-MM-ddTHH:mm:ssZ`. */
  function Format(t: DateTime): (r: string)
    requires t.Valid()
    ensures |r| == 20
    ensures r[4] == '-' && r[7] == '-' && r[10] == 'T'
    ensures r[13] == ':' && r[16] == ':' && r[19] == 'Z'
    ensures forall i :: 0 <= i < |r| && i !in SeparatorPositions ==> IsDigit(r[i])
  {
    var y, mo, d := PadDigits(t.year, 4), PadDigits(t.month, 2), PadDigits(t.day, 2);
    var h, mi, se := PadDigits(t.hour, 2), PadDigits(t.minute, 2), PadDigits(t.second, 2);
    LayoutFields(y, mo, d, h, mi, se);
    var r := Layout(y, mo, d, h, mi, se);
    assert forall i :: 0 <= i < |r| && i !in SeparatorPositions ==> IsDigit(r[i]) by {
      forall i | 0 <= i < |r| && i !in SeparatorPositions
        ensures IsDigit(r[i])
      {
        if i < 4 { assert r[i] == y[i]; }
        else if i < 7 { assert r[i] == mo[i - 5]; }
        else if i < 10 { assert r[i] == d[i - 8]; }
        else if i < 13 { assert r[i] == h[i - 11]; }
        else if i < 16 { assert r[i] == mi[i - 14]; }
        else { assert r[i] == se[i - 17]; }
      }
    }
    r
  }

  /** Reads a string of the pattern `yyyy-MM-ddTHH:mm:ssZ`, rejecting anything else. */
  function Parse(s: string): (r: Option<DateTime>)
    ensures r.Some? ==> r.value.Valid() && r.value.ticks == 0
  {
    if |s| != 20 then None
    else if s[4] != '-' || s[7] != '-' || s[10] != 'T' then None
    else if s[13] != ':' || s[16] != ':' || s[19] != 'Z' then None
    else if !AllDigits(s[0..4]) || !AllDigits(s[5..7]) || !AllDigits(s[8..10]) then None
    else if !AllDigits(s[11..13]) || !AllDigits(s[14..16]) || !AllDigits(s[17..19]) then None
    else
      var t := DateTime(
        DigitsValue(s[0..4]), DigitsValue(s[5..7]), DigitsValue(s[8..10]),
        DigitsValue(s[11..13]), DigitsValue(s[14..16]), DigitsValue(s[17..19]), 0);
      if t.Valid() then Some(t) else None
  }

  /** Parsing a formatted date-time recovers every field down to the second. */
  lemma ParseFormat(t: DateTime)
    requires t.Valid()
    ensures Parse(Format(t)) == Some(t.WholeSeconds())
  {
    LayoutFields(PadDigits(t.year, 4), PadDigits(t.month, 2), PadDigits(t.day, 2),
                 PadDigits(t.hour, 2), PadDigits(t.minute, 2), PadDigits(t.second, 2));
    DigitsValuePad(t.year, 4);
    DigitsValuePad(t.month, 2);
    DigitsValuePad(t.day, 2);
    DigitsValuePad(t.hour, 2);
    DigitsValuePad(t.minute, 2);
    DigitsValuePad(t.second, 2);
  }

  /** Every string the parser accepts is exactly the rendering of what it parsed. */
  lemma FormatParse(s: string)
    requires Parse(s).Some?
    ensures Format(Parse(s).value) == s
  {
    var t := Parse(s).value;
    PadDigitsValue(s[0..4]);
    PadDigitsValue(s[5..7]);
    PadDigitsValue(s[8..10]);
    PadDigitsValue(s[11..13]);
    PadDigitsValue(s[14..16]);
    PadDigitsValue(s[17..19]);
    assert Format(t) == Layout(s[0..4], s[5..7], s[8..10], s[11..13], s[14..16], s[17..19]);
    LayoutOfSlices(s);
  }

  /** Two date-times format alike exactly when they agree to the second. */
  lemma FormatInjective(t1: DateTime, t2: DateTime)
    requires t1.Valid() && t2.Valid()
    ensures Format(t1) == Format(t2) <==> t1.WholeSeconds() == t2.WholeSeconds()
  {
    ParseFormat(t1);
    ParseFormat(t2);
  }
}
