/** Proleptic Gregorian dates as Python's `datetime.date` accepts them, the
    strict `%Y-%m-%d` parse and the `%Y%m%d` rendering (the DATE value form of
    section 3.3.4 of RFC 5545). */
module Gregorian {
  import opened Wrappers
  import opened Text
  import opened Digits

  /** `datetime.MINYEAR` and `datetime.MAXYEAR`. */
  const MinYear := 1
  const MaxYear := 9999

  datatype Date = Date(year: int, month: int, day: int)

  predicate IsLeapYear(y: int) {
    y % 4 == 0 && (y % 100 != 0 || y % 400 == 0)
  }

  function DaysInMonth(y: int, m: int): (n: int)
    requires 1 <= m <= 12
    ensures 28 <= n <= 31
    ensures n == 29 <==> m == 2 && IsLeapYear(y)
    ensures n == 31 <==> m in {1, 3, 5, 7, 8, 10, 12}
  {
    if m == 2 then (if IsLeapYear(y) then 29 else 28)
    else if m in {4, 6, 9, 11} then 30
    else 31
  }

  /** The dates `datetime.date(year, month, day)` constructs without raising
      `ValueError`. */
  predicate ValidDate(d: Date) {
    && MinYear <= d.year <= MaxYear
    && 1 <= d.month <= 12
    && 1 <= d.day <= DaysInMonth(d.year, d.month)
  }

  /** `YYYY-MM-DD`. */
  function FormatIsoDate(d: Date): (s: string)
    requires ValidDate(d)
    ensures |s| == 10 && s[4] == '-' && s[7] == '-'
  {
    Pad4(d.year) + "-" + Pad2(d.month) + "-" + Pad2(d.day)
  }

  /** `YYYYMMDD`, what `strftime("%Y%m%d")` gives and what a DATE value of
      section 3.3.4 of RFC 5545 looks like. */
  function FormatBasicDate(d: Date): (s: string)
    requires ValidDate(d)
    ensures |s| == 8 && AllDigits(s)
  {
    Pad4(d.year) + Pad2(d.month) + Pad2(d.day)
  }

  /** Four digits, `-`, two digits, `-`, two digits. */
  predicate IsIsoShape(s: string) {
    && |s| == 10
    && s[4] == '-' && s[7] == '-'
    && AllDigits(s[0..4]) && AllDigits(s[5..7]) && AllDigits(s[8..10])
  }

  /** `datetime.strptime(s, "%Y-%m-%d").date()`: `None` where it raises
      `ValueError`. */
  function ParseIsoDate(s: string): (r: Option<Date>)
    ensures r.Some? ==> ValidDate(r.value) && FormatIsoDate(r.value) == s
  {
    if !IsIsoShape(s) then None
    else
      var d := Date(Read4(s, 0), Read2(s, 5), Read2(s, 8));
      if ValidDate(d) then
        IsoShapeFormat(s, d);
        Some(d)
      else None
  }

  lemma IsoShapeFormat(s: string, d: Date)
    requires IsIsoShape(s) && d == Date(Read4(s, 0), Read2(s, 5), Read2(s, 8)) && ValidDate(d)
    ensures FormatIsoDate(d) == s
  {
    Pad4Read4(s, 0);
    Pad2Read2(s, 5);
    Pad2Read2(s, 8);
    assert s == s[0..4] + [s[4]] + s[5..7] + [s[7]] + s[8..10];
  }

  /** Every valid date is parsed back from its `YYYY-MM-DD` text; with the
      postcondition of `ParseIsoDate` this makes the two exact inverses. */
  lemma {:induction false} ParseFormatIsoDate(d: Date)
    requires ValidDate(d)
    ensures ParseIsoDate(FormatIsoDate(d)) == Some(d)
  {
    var s := FormatIsoDate(d);
    assert s[0..4] == Pad4(d.year);
    assert s[5..7] == Pad2(d.month);
    assert s[8..10] == Pad2(d.day);
    Read4Pad4(d.year);
    Read2Pad2(d.month);
    Read2Pad2(d.day);
    assert Read4(s, 0) == Read4(s[0..4], 0);
    assert Read2(s, 5) == Read2(s[5..7], 0);
    assert Read2(s, 8) == Read2(s[8..10], 0);
  }

  /** A string is accepted by `ParseIsoDate` exactly when it is the
      `YYYY-MM-DD` text of some valid date. */
  lemma ParseIsoDateIff(s: string)
    ensures ParseIsoDate(s).Some? <==> exists d :: ValidDate(d) && FormatIsoDate(d) == s
  {
    if d :| ValidDate(d) && FormatIsoDate(d) == s {
      ParseFormatIsoDate(d);
    }
  }

  /** `YYYYMMDD` read back as a date, when it is one. */
  function ParseBasicDate(s: string): (r: Option<Date>)
    ensures r.Some? ==> ValidDate(r.value) && FormatBasicDate(r.value) == s
  {
    if |s| != 8 || !AllDigits(s) then None
    else
      assert AllDigits(s[0..4]) && AllDigits(s[4..6]) && AllDigits(s[6..8]);
      var d := Date(Read4(s, 0), Read2(s, 4), Read2(s, 6));
      if ValidDate(d) then
        Pad4Read4(s, 0);
        Pad2Read2(s, 4);
        Pad2Read2(s, 6);
        assert s == s[0..4] + s[4..6] + s[6..8];
        Some(d)
      else None
  }

  /** The `YYYYMMDD` form loses nothing: the date is recovered from it. */
  lemma {:induction false} ParseFormatBasicDate(d: Date)
    requires ValidDate(d)
    ensures ParseBasicDate(FormatBasicDate(d)) == Some(d)
  {
    var s := FormatBasicDate(d);
    assert s[0..4] == Pad4(d.year);
    assert s[4..6] == Pad2(d.month);
    assert s[6..8] == Pad2(d.day);
    Read4Pad4(d.year);
    Read2Pad2(d.month);
    Read2Pad2(d.day);
    assert Read4(s, 0) == Read4(s[0..4], 0);
    assert Read2(s, 4) == Read2(s[4..6], 0);
    assert Read2(s, 6) == Read2(s[6..8], 0);
  }

  lemma DigitsHaveNoHyphen(s: string)
    requires AllDigits(s)
    ensures '-' !in s && Without(s, '-') == s
  {
    WithoutAbsent(s, '-');
  }

  /** The `YYYYMMDD` form of a parsed date is the input text with its two
      hyphens taken out. */
  lemma {:induction false} BasicIsIsoWithoutHyphens(s: string)
    requires ParseIsoDate(s).Some?
    ensures FormatBasicDate(ParseIsoDate(s).value) == Without(s, '-')
  {
    var d := ParseIsoDate(s).value;
    var y, m, dd := Pad4(d.year), Pad2(d.month), Pad2(d.day);
    var h := "-";
    assert s == y + h + m + h + dd;
    DigitsHaveNoHyphen(y);
    DigitsHaveNoHyphen(m);
    DigitsHaveNoHyphen(dd);
    assert Without(h, '-') == "" by {
      assert h[..0] == "";
    }
    WithoutConcat(y, h, '-');
    assert Without(y + h, '-') == y;
    WithoutConcat(y + h, m, '-');
    assert Without(y + h + m, '-') == y + m;
    WithoutConcat(y + h + m, h, '-');
    assert Without(y + h + m + h, '-') == y + m;
    WithoutConcat(y + h + m + h, dd, '-');
  }
}
