/** Decimal numerals: powers of ten and fixed-width digit strings. */
module Numerals {
  function Pow10(k: nat): (p: nat)
    ensures p >= 1
  {
    if k == 0 then 1 else 10 * Pow10(k - 1)
  }

  predicate IsAsciiDigit(c: char) {
    '0' <= c <= '9'
  }

  predicate AllDigits(s: string) {
    forall i :: 0 <= i < |s| ==> IsAsciiDigit(s[i])
  }

  function DigitChar(d: int): (c: char)
    requires 0 <= d <= 9
    ensures IsAsciiDigit(c) && c as int - '0' as int == d
  {
    ('0' as int + d) as char
  }

  /** The number an all-digit string denotes, most significant digit first. */
  function DigitsValue(s: string): nat
    requires AllDigits(s)
  {
    if s == [] then 0 else DigitsValue(s[..|s| - 1]) * 10 + (s[|s| - 1] as int - '0' as int)
  }

  /** The last `width` decimal digits of `n`, padded with leading zeros. */
  function PadDigits(n: nat, width: nat): (s: string)
    ensures |s| == width && AllDigits(s)
  {
    if width == 0 then [] else PadDigits(n / 10, width - 1) + [DigitChar(n % 10)]
  }

  /** Padding a number that fits and reading it back gives the number. */
  lemma {:induction false} ValueOfPadDigits(n: nat, width: nat)
    requires n < Pow10(width)
    ensures DigitsValue(PadDigits(n, width)) == n
  {
    if width > 0 {
      var s := PadDigits(n, width);
      assert s[..|s| - 1] == PadDigits(n / 10, width - 1);
      assert n / 10 < Pow10(width - 1);
      ValueOfPadDigits(n / 10, width - 1);
    }
  }

  /** Reading a digit string and padding it back to its width gives the string. */
  lemma {:induction false} PadDigitsOfValue(s: string)
    requires AllDigits(s)
    ensures PadDigits(DigitsValue(s), |s|) == s
  {
    if s != [] {
      var init := s[..|s| - 1];
      var n := DigitsValue(s);
      var last := s[|s| - 1] as int - '0' as int;
      assert n / 10 == DigitsValue(init) && n % 10 == last;
      PadDigitsOfValue(init);
      assert s == init + [s[|s| - 1]];
    }
  }
}

/**
 * Calendar dates as `DateOnly` holds them, and the exact `yyyy-MM-dd` parse
 * that `DateOnly.TryParseExact(s, "yyyy-MM-dd", CultureInfo.InvariantCulture,
 * DateTimeStyles.None, out _)` performs: the full-date of section 5.6 of
 * RFC 3339, with the month lengths and leap-year rule of its section 5.7,
 * restricted to the years 0001 to 9999 that `DateOnly` can represent.
 */
module Dates {
  import opened Wrappers
  import opened Numerals

  datatype Date = Date(year: int, month: int, day: int)

  /** The Gregorian leap-year rule. */
  predicate IsLeapYear(y: int) {
    y % 4 == 0 && (y % 100 != 0 || y % 400 == 0)
  }

  function DaysInMonth(year: int, month: int): (n: int)
    requires 1 <= month <= 12
    ensures 28 <= n <= 31
    ensures n == 29 <==> month == 2 && IsLeapYear(year)
  {
    if month == 2 then (if IsLeapYear(year) then 29 else 28)
    else if month == 4 || month == 6 || month == 9 || month == 11 then 30
    else 31
  }

  /** The range of `DateOnly`: 0001-01-01 to 9999-12-31. */
  predicate IsValid(d: Date) {
    1 <= d.year <= 9999 && 1 <= d.month <= 12 && 1 <= d.day <= DaysInMonth(d.year, d.month)
  }

  type DateOnly = d: Date | IsValid(d) witness Date(1, 1, 1)

  /** `default(DateOnly)`. */
  const Default: DateOnly := Date(1, 1, 1)

  /** The `yyyy-MM-dd` shape: four, two and two ASCII digits separated by '-'. */
  predicate HasIsoShape(s: string) {
    && |s| == 10 && s[4] == '-' && s[7] == '-'
    && AllDigits(s[..4]) && AllDigits(s[5..7]) && AllDigits(s[8..])
  }

  /** Exact `yyyy-MM-dd` parse: the shape, then a real calendar date. */
  function ParseExact(s: string): (r: Option<DateOnly>)
    ensures r.Some? ==> HasIsoShape(s)
  {
    if HasIsoShape(s) then
      var d := Date(DigitsValue(s[..4]), DigitsValue(s[5..7]), DigitsValue(s[8..]));
      if IsValid(d) then Some(d) else None
    else None
  }

  /** `DateOnly.ToString("yyyy-MM-dd")`. */
  function Format(d: DateOnly): (s: string)
    ensures HasIsoShape(s)
  {
    var s := PadDigits(d.year, 4) + "-" + PadDigits(d.month, 2) + "-" + PadDigits(d.day, 2);
    assert s[..4] == PadDigits(d.year, 4) && s[5..7] == PadDigits(d.month, 2) && s[8..] == PadDigits(d.day, 2);
    s
  }

  /** Every date is accepted in its own formatting. */
  lemma ParseFormat(d: DateOnly)
    ensures ParseExact(Format(d)) == Some(d)
  {
    var s := Format(d);
    assert s[..4] == PadDigits(d.year, 4) && s[5..7] == PadDigits(d.month, 2) && s[8..] == PadDigits(d.day, 2);
    ValueOfPadDigits(d.year, 4);
    ValueOfPadDigits(d.month, 2);
    ValueOfPadDigits(d.day, 2);
  }

  /** Only the canonical formatting of a date is accepted: nothing else parses. */
  lemma FormatParse(s: string)
    requires ParseExact(s).Some?
    ensures Format(ParseExact(s).value) == s
  {
    var d := ParseExact(s).value;
    PadDigitsOfValue(s[..4]);
    PadDigitsOfValue(s[5..7]);
    PadDigitsOfValue(s[8..]);
    assert s == s[..4] + "-" + s[5..7] + "-" + s[8..];
  }

  /** The strings the parse accepts are exactly the formattings of dates. */
  lemma ParseExactIff(s: string, d: DateOnly)
    ensures ParseExact(s) == Some(d) <==> s == Format(d)
  {
    if ParseExact(s) == Some(d) {
      FormatParse(s);
    }
    if s == Format(d) {
      ParseFormat(d);
    }
  }

  /** The value of an ASCII digit. */
  function DigitOf(c: char): int {
    c as int - '0' as int
  }

  /** The parse of a ten-character `dddd-dd-dd` string, in terms of its digits. */
  lemma ParseExactOfDigits(s: string)
    requires |s| == 10 && s[4] == '-' && s[7] == '-'
    requires forall i :: 0 <= i < 10 && i != 4 && i != 7 ==> IsAsciiDigit(s[i])
    ensures var d := Date(1000 * DigitOf(s[0]) + 100 * DigitOf(s[1]) + 10 * DigitOf(s[2]) + DigitOf(s[3]),
                          10 * DigitOf(s[5]) + DigitOf(s[6]),
                          10 * DigitOf(s[8]) + DigitOf(s[9]));
            ParseExact(s) == if IsValid(d) then Some(d) else None
  {
    assert AllDigits(s[..4]) && AllDigits(s[5..7]) && AllDigits(s[8..]);
    ValueOf4(s[..4]);
    ValueOf2(s[5..7]);
    ValueOf2(s[8..]);
  }

  /** 2024 and 2000 are leap years, so their 29 February is accepted. */
  lemma LeapDayAccepted()
    ensures ParseExact("2024-02-29") == Some(Date(2024, 2, 29))
    ensures ParseExact("2000-02-29") == Some(Date(2000, 2, 29))
  {
    ParseExactOfDigits("2024-02-29");
    ParseExactOfDigits("2000-02-29");
  }

  /** 2025 and 1900 are not leap years; April has 30 days. */
  lemma NonexistentDaysRejected()
    ensures ParseExact("2025-02-29") == None
    ensures ParseExact("1900-02-29") == None
    ensures ParseExact("2025-04-31") == None
  {
    ParseExactOfDigits("2025-02-29");
    ParseExactOfDigits("1900-02-29");
    ParseExactOfDigits("2025-04-31");
  }

  /** Other separators, unpadded fields and the year 0000 are rejected. */
  lemma MalformedRejected()
    ensures ParseExact("2025/01/01") == None
    ensures ParseExact("2025-1-01") == None
    ensures ParseExact("0000-01-01") == None
  {
    ParseExactOfDigits("0000-01-01");
  }

  /** Unfolds the value of a two-digit string. */
  lemma ValueOf2(s: string)
    requires |s| == 2 && AllDigits(s)
    ensures DigitsValue(s) == 10 * (s[0] as int - '0' as int) + (s[1] as int - '0' as int)
  {
    assert s[..1][..0] == [];
    assert DigitsValue(s[..1]) == s[0] as int - '0' as int;
  }

  /** Unfolds the value of a four-digit string. */
  lemma ValueOf4(s: string)
    requires |s| == 4 && AllDigits(s)
    ensures DigitsValue(s) == 1000 * (s[0] as int - '0' as int) + 100 * (s[1] as int - '0' as int)
                              + 10 * (s[2] as int - '0' as int) + (s[3] as int - '0' as int)
  {
    var s3 := s[..3];
    assert s3[..2] == s[..2];
    ValueOf2(s[..2]);
    assert DigitsValue(s3) == DigitsValue(s[..2]) * 10 + (s[2] as int - '0' as int);
  }
}
