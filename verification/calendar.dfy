/**
 * java.time.LocalDate and LocalDateTime in the proleptic Gregorian calendar,
 * and the `YYYY-MM-DD` calendar-date extended format of section 4.1.2.2 of
 * ISO 8601:2004 as DateTimeFormatter.ISO_LOCAL_DATE parses it (strictly, so
 * that February 30 is refused).
 */
module Calendar {
  import opened Results
  import opened JavaText

  datatype Date = Date(year: int, month: int, day: int)

  /** A LocalDateTime: a date and the nanosecond of that day. */
  datatype DateTime = DateTime(date: Date, nanoOfDay: nat)

  predicate IsLeapYear(y: int)
  {
    y % 4 == 0 && (y % 100 != 0 || y % 400 == 0)
  }

  function DaysInMonth(y: int, m: int): (n: int)
    requires 1 <= m <= 12
    ensures 28 <= n <= 31
  {
    if m == 2 then (if IsLeapYear(y) then 29 else 28)
    else if m == 4 || m == 6 || m == 9 || m == 11 then 30
    else 31
  }

  /** A real calendar date. */
  predicate Valid(d: Date)
  {
    1 <= d.month <= 12 && 1 <= d.day <= DaysInMonth(d.year, d.month)
  }

  /** `a.isBefore(b)`: chronological order. */
  predicate Before(a: Date, b: Date)
  {
    || a.year < b.year
    || (a.year == b.year && a.month < b.month)
    || (a.year == b.year && a.month == b.month && a.day < b.day)
  }

  /** `a.compareTo(b)`: negative, zero or positive as `a` is before, equal to, or after `b`. */
  function CompareDates(a: Date, b: Date): (r: int)
    ensures r < 0 <==> Before(a, b)
    ensures r == 0 <==> a == b
    ensures r > 0 <==> Before(b, a)
  {
    if a.year != b.year then a.year - b.year
    else if a.month != b.month then a.month - b.month
    else a.day - b.day
  }

  /** `d.plusYears(n)`: same month and day, the day clamped to the month's last
      day (so February 29 becomes February 28 in a common year). */
  function PlusYears(d: Date, n: int): (r: Date)
    requires Valid(d)
    ensures Valid(r)
    ensures r.year == d.year + n && r.month == d.month
    ensures r.day == d.day || (d.month == 2 && d.day == 29 && r.day == 28 && !IsLeapYear(r.year))
  {
    var y := d.year + n;
    var last := DaysInMonth(y, d.month);
    Date(y, d.month, if d.day <= last then d.day else last)
  }

  /** `d.minusYears(n)` */
  function MinusYears(d: Date, n: int): (r: Date)
    requires Valid(d)
    ensures Valid(r)
  {
    PlusYears(d, -n)
  }

  /** Adding years keeps the chronological order (not strictly, because of the clamp). */
  lemma PlusYearsMonotone(a: Date, b: Date, n: int)
    requires Valid(a) && Valid(b) && !Before(b, a)
    ensures !Before(PlusYears(b, n), PlusYears(a, n))
  {
  }

  // ---------------------------------------------------------------------------
  // ISO_LOCAL_DATE
  // ---------------------------------------------------------------------------

  /** The years a LocalDate holds: `Year.MIN_VALUE..Year.MAX_VALUE`. */
  const MaxYear: int := 999_999_999

  predicate InYearRange(y: int)
  {
    -MaxYear <= y <= MaxYear
  }

  /** The year field of ISO_LOCAL_DATE, `appendValue(YEAR, 4, 10,
      SignStyle.EXCEEDS_PAD)`, parsed strictly: four to ten digits after a
      sign, where `+` is taken only when more than four digits follow and
      `-` never with the value zero; exactly four digits without a sign. */
  function ParseYear(p: string): (r: Option<int>)
    ensures r.Some? ==> InYearRange(r.value)
    ensures r.Some? ==> |p| > 0 && (p[0] != '+' && p[0] != '-' ==> |p| == 4 && AllDigits(p) && 0 <= r.value <= 9999)
  {
    if |p| == 0 then None
    else if p[0] == '+' || p[0] == '-' then
      var digits := p[1..];
      if !AllDigits(digits) || |digits| < 4 || |digits| > 10 then None
      else if p[0] == '+' && |digits| == 4 then None
      else
        var v: int := DigitsValue(digits);
        if p[0] == '-' && v == 0 then None
        else if v > MaxYear then None
        else Some(if p[0] == '-' then -v else v)
    else if |p| == 4 && AllDigits(p) then
      DigitsValueBound(p);
      Some(DigitsValue(p))
    else None
  }

  /** The layout `<year>-dd-dd`: a year part, then two-digit month and day. */
  predicate IsoShape(s: string)
  {
    && |s| >= 10 && s[|s| - 6] == '-' && s[|s| - 3] == '-'
    && AllDigits(s[|s| - 5..|s| - 3]) && AllDigits(s[|s| - 2..])
  }

  /** `LocalDate.parse(s, ISO_LOCAL_DATE)`; `None` is a DateTimeParseException:
      a wrong layout or year, a month outside 1..12, or a day that does not
      exist in that month. */
  function ParseIsoLocalDate(s: string): (r: Option<Date>)
    ensures r.Some? ==> Valid(r.value) && InYearRange(r.value.year)
    ensures r.Some? ==> |s| >= 10 && (IsAsciiDigit(s[0]) ==> 0 <= r.value.year <= 9999 && |s| == 10)
  {
    if !IsoShape(s) then None
    else
      var n := |s|;
      match ParseYear(s[..n - 6])
      case None => None
      case Some(y) =>
        var d := Date(y, DigitsValue(s[n - 5..n - 3]), DigitsValue(s[n - 2..]));
        if Valid(d) then Some(d) else None
  }

  /** A number written with exactly `width` digits, zero-padded on the left. */
  function Pad(n: nat, width: nat): (r: string)
    ensures |r| == width && AllDigits(r)
  {
    if width == 0 then [] else Pad(n / 10, width - 1) + [DigitChar(n % 10)]
  }

  function Pow10(k: nat): (r: nat)
    ensures r >= 1
  {
    if k == 0 then 1 else 10 * Pow10(k - 1)
  }

  lemma {:induction false} PadValue(n: nat, width: nat)
    requires n < Pow10(width)
    ensures DigitsValue(Pad(n, width)) == n
  {
    if width > 0 {
      var r := Pad(n, width);
      assert r[..|r| - 1] == Pad(n / 10, width - 1);
      PadValue(n / 10, width - 1);
    }
  }

  lemma {:induction false} DigitsValueBound(s: string)
    requires AllDigits(s)
    ensures DigitsValue(s) < Pow10(|s|)
  {
    if |s| > 0 {
      DigitsValueBound(s[..|s| - 1]);
    }
  }

  /** The decimal text of `n` has more than `k` digits iff `n >= 10^k`. */
  lemma {:induction false} NatToStringLength(n: nat, k: nat)
    requires k >= 1
    ensures |NatToString(n)| > k <==> n >= Pow10(k)
  {
    if n >= 10 && k > 1 {
      NatToStringLength(n / 10, k - 1);
    }
  }

  /** The year as `LocalDate.toString` prints it: four digits, zero-padded,
      for 0..9999; a `+` and the digits above 9999; a `-` and at least four
      digits below zero. */
  function YearText(y: int): (r: string)
  {
    if 0 <= y <= 9999 then Pad(y, 4)
    else if y > 9999 then "+" + NatToString(y)
    else "-" + (if -y <= 9999 then Pad(-y, 4) else NatToString(-y))
  }

  /** `LocalDate.toString()`. */
  function FormatIsoLocalDate(d: Date): string
    requires Valid(d)
  {
    YearText(d.year) + "-" + Pad(d.month, 2) + "-" + Pad(d.day, 2)
  }

  lemma Pow10Values()
    ensures Pow10(4) == 10_000 && Pow10(10) == 10_000_000_000
  {
  }

  /** A sign followed by four to ten digits of a non-zero year in range,
      with more than four digits after a `+`. */
  lemma ParseSignedYear(p: string, v: nat)
    requires |p| > 1 && (p[0] == '+' || p[0] == '-') && AllDigits(p[1..])
    requires 4 <= |p| - 1 <= 10 && (p[0] == '+' ==> |p| - 1 > 4)
    requires DigitsValue(p[1..]) == v && 0 < v <= MaxYear
    ensures ParseYear(p) == Some(if p[0] == '-' then -(v as int) else v as int)
  {
  }

  /** A magnitude above 9999 is printed with five to ten digits. */
  lemma LongYearDigits(m: nat)
    requires 9999 < m <= MaxYear
    ensures 4 < |NatToString(m)| <= 10 && DigitsValue(NatToString(m)) == m
  {
    Pow10Values();
    NatToStringLength(m, 4);
    NatToStringLength(m, 10);
    DigitsValueOfNatToString(m);
  }

  /** The printed year parses back to the year. */
  lemma ParseYearText(y: int)
    requires InYearRange(y)
    ensures ParseYear(YearText(y)) == Some(y)
  {
    var p := YearText(y);
    if 0 <= y <= 9999 {
      PadValue(y, 4);
    } else if y > 9999 {
      assert p[1..] == NatToString(y);
      LongYearDigits(y);
      ParseSignedYear(p, y);
    } else if -y <= 9999 {
      assert p[1..] == Pad(-y, 4);
      PadValue(-y, 4);
      ParseSignedYear(p, -y);
    } else {
      assert p[1..] == NatToString(-y);
      LongYearDigits(-y);
      ParseSignedYear(p, -y);
    }
  }

  /** Formatting a date and parsing it back gives the date. */
  lemma ParseFormatRoundTrip(d: Date)
    requires Valid(d) && InYearRange(d.year)
    ensures ParseIsoLocalDate(FormatIsoLocalDate(d)) == Some(d)
  {
    var s := FormatIsoLocalDate(d);
    var n := |s|;
    var p := YearText(d.year);
    assert s[..n - 6] == p;
    assert s[n - 5..n - 3] == Pad(d.month, 2);
    assert s[n - 2..] == Pad(d.day, 2);
    ParseYearText(d.year);
    PadValue(d.month, 2);
    PadValue(d.day, 2);
  }

  lemma {:induction false} PadOfDigitsValue(s: string)
    requires AllDigits(s)
    ensures Pad(DigitsValue(s), |s|) == s
  {
    if |s| > 0 {
      var p := s[..|s| - 1];
      assert DigitsValue(s) / 10 == DigitsValue(p);
      assert DigitsValue(s) % 10 == DigitValue(s[|s| - 1]);
      PadOfDigitsValue(p);
      assert s == p + [s[|s| - 1]];
    }
  }

  /** Formatting a parsed date gives a text for the same date; a text with
      an unsigned year is the canonical one. A signed year may be written
      with extra leading zeros, which printing drops. */
  lemma FormatParseRoundTrip(s: string)
    requires ParseIsoLocalDate(s).Some?
    ensures ParseIsoLocalDate(FormatIsoLocalDate(ParseIsoLocalDate(s).value)) == ParseIsoLocalDate(s)
    ensures IsAsciiDigit(s[0]) ==> FormatIsoLocalDate(ParseIsoLocalDate(s).value) == s
  {
    ParseFormatRoundTrip(ParseIsoLocalDate(s).value);
    if IsAsciiDigit(s[0]) {
      UnsignedTextIsCanonical(s);
    }
  }

  /** A text with an unsigned year is `dddd-dd-dd`, read field by field. */
  lemma UnsignedParts(s: string)
    requires ParseIsoLocalDate(s).Some? && IsAsciiDigit(s[0])
    ensures |s| == 10 && s == Join(s[0..4], s[5..7], s[8..10])
    ensures AllDigits(s[0..4]) && AllDigits(s[5..7]) && AllDigits(s[8..10])
    ensures ParseIsoLocalDate(s).value == Date(DigitsValue(s[0..4]), DigitsValue(s[5..7]), DigitsValue(s[8..10]))
  {
    assert s[..|s| - 6] == s[0..4] && s[|s| - 5..|s| - 3] == s[5..7] && s[|s| - 2..] == s[8..10];
    assert s == s[0..4] + "-" + s[5..7] + "-" + s[8..10];
  }

  lemma UnsignedTextIsCanonical(s: string)
    requires ParseIsoLocalDate(s).Some? && IsAsciiDigit(s[0])
    ensures FormatIsoLocalDate(ParseIsoLocalDate(s).value) == s
  {
    UnsignedParts(s);
    var d := ParseIsoLocalDate(s).value;
    PadOfDigitsValue(s[0..4]);
    PadOfDigitsValue(s[5..7]);
    PadOfDigitsValue(s[8..10]);
    assert FormatIsoLocalDate(d) == Join(Pad(d.year, 4), Pad(d.month, 2), Pad(d.day, 2));
  }

  function Join(y: string, m: string, d: string): string
  {
    y + "-" + m + "-" + d
  }

  /** The text of a date splits back at its last two dashes. */
  lemma IsoParts(y: string, m: string, d: string)
    requires |m| == 2 && |d| == 2
    ensures |Join(y, m, d)| == |y| + 6
    ensures Join(y, m, d)[..|y|] == y && Join(y, m, d)[|y| + 1..|y| + 3] == m && Join(y, m, d)[|y| + 4..] == d
    ensures Join(y, m, d)[|y|] == '-' && Join(y, m, d)[|y| + 3] == '-'
  {
  }

  lemma DigitsOne()
    ensures DigitsValue("01") == 1
    ensures DigitsValue("0001") == 1
    ensures DigitsValue("00001") == 1
  {
    assert "01"[..1] == "0";
    assert "0001"[..3] == "000" && "000"[..2] == "00" && "00"[..1] == "0";
    assert "00001"[..4] == "0000" && "0000"[..3] == "000";
  }

  /** `-0001` is the year before year 0. */
  lemma MinusOneYearParses()
    ensures ParseIsoLocalDate("-0001-01-01") == Some(Date(-1, 1, 1))
  {
    DigitsOne();
    IsoParts("-0001", "01", "01");
    assert Join("-0001", "01", "01") == "-0001-01-01";
    assert "-0001"[1..] == "0001";
  }

  /** `+10000` is a five-digit year. */
  lemma FiveDigitYearParses()
    ensures ParseIsoLocalDate("+10000-01-01") == Some(Date(10000, 1, 1))
  {
    DigitsOne();
    IsoParts("+10000", "01", "01");
    assert Join("+10000", "01", "01") == "+10000-01-01";
    assert "+10000"[1..] == "10000";
    assert DigitsValue("10000") == 10000 by {
      assert "10000"[..4] == "1000" && "1000"[..3] == "100" && "100"[..2] == "10" && "10"[..1] == "1";
    }
  }

  /** Year 1 is printed with four digits and no sign. */
  lemma YearOneText()
    ensures FormatIsoLocalDate(Date(1, 1, 1)) == "0001-01-01"
  {
    assert Pad(1, 4) == "0001";
    assert Pad(1, 2) == "01";
  }

  /** A `+` year may carry extra leading zeros, which printing drops. */
  lemma PaddedSignedYearIsNotCanonical()
    ensures ParseIsoLocalDate("+00001-01-01") == Some(Date(1, 1, 1))
    ensures FormatIsoLocalDate(Date(1, 1, 1)) == "0001-01-01"
  {
    DigitsOne();
    IsoParts("+00001", "01", "01");
    assert Join("+00001", "01", "01") == "+00001-01-01";
    assert "+00001"[1..] == "00001";
    YearOneText();
  }

  /** A `+` needs more than four digits, a `-` refuses zero, and an unsigned
      year has exactly four digits. */
  lemma SignedYearsRefused()
    ensures ParseIsoLocalDate("+2024-01-01").None?
    ensures ParseIsoLocalDate("-0000-01-01").None?
    ensures ParseIsoLocalDate("20240-01-01").None?
  {
    var a := "+2024-01-01";
    assert a[..|a| - 6] == "+2024" && |"+2024"[1..]| == 4;
    var b := "-0000-01-01";
    assert b[..|b| - 6] == "-0000" && "-0000"[1..] == "0000";
    assert DigitsValue("0000") == 0 by { assert "0000"[..3] == "000" && "000"[..2] == "00" && "00"[..1] == "0"; }
    var c := "20240-01-01";
    assert c[..|c| - 6] == "20240";
  }

  /** February 30 is refused, and February 29 only in leap years. */
  lemma YearDigits()
    ensures DigitsValue("2024") == 2024 && DigitsValue("2023") == 2023
  {
    assert "2024"[..3] == "202" && "2023"[..3] == "202" && "202"[..2] == "20" && "20"[..1] == "2";
  }

  /** February 30th does not exist in any year. */
  lemma StrictDayOfMonth()
    ensures ParseIsoLocalDate("2024-02-30").None?
  {
    YearDigits();
    assert DigitsValue("02") == 2 by { assert "02"[..1] == "0"; }
    assert DigitsValue("30") == 30 by { assert "30"[..1] == "3"; }
    assert "2024-02-30"[0..4] == "2024" && "2024-02-30"[5..7] == "02" && "2024-02-30"[8..10] == "30";
  }

  /** February 29th exists only in a leap year. */
  lemma LeapDayOnlyInLeapYears()
    ensures ParseIsoLocalDate("2023-02-29").None?
    ensures ParseIsoLocalDate("2024-02-29") == Some(Date(2024, 2, 29))
  {
    YearDigits();
    assert DigitsValue("02") == 2 by { assert "02"[..1] == "0"; }
    assert DigitsValue("29") == 29 by { assert "29"[..1] == "2"; }
    assert "2023-02-29"[0..4] == "2023" && "2023-02-29"[5..7] == "02" && "2023-02-29"[8..10] == "29";
    assert "2024-02-29"[0..4] == "2024" && "2024-02-29"[5..7] == "02" && "2024-02-29"[8..10] == "29";
  }
}
