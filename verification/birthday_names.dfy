/** How `create_birthday_ics` composes a contact's full name and decides
    what a birthday cell means. */
module BirthdayRules {
  import opened Text
  import opened Digits
  import opened Gregorian

  /** The non-empty strings of `parts`, in order (the list comprehension
      `[part for part in parts if part]`). */
  function NonEmptyParts(parts: seq<string>): (r: seq<string>)
    ensures |r| <= |parts|
    ensures forall k :: 0 <= k < |r| ==> r[k] != ""
    ensures forall x :: x in r <==> x in parts && x != ""
  {
    if parts == [] then []
    else
      var rest := NonEmptyParts(parts[..|parts| - 1]);
      var last := parts[|parts| - 1];
      if last == "" then rest
      else
        assert forall k :: 0 <= k < |rest| ==> (rest + [last])[k] == rest[k];
        rest + [last]
  }

  /** First, middle and last name, each stripped, blanks dropped, joined by
      single spaces. */
  function FullName(first: string, middle: string, last: string): (name: string)
    ensures name == "" <==> Strip(first) == "" && Strip(middle) == "" && Strip(last) == ""
  {
    var names := [Strip(first), Strip(middle), Strip(last)];
    var parts := NonEmptyParts(names);
    JoinEmptyIff(parts, " ");
    assert parts == [] <==> names[0] == "" && names[1] == "" && names[2] == "" by {
      if parts == [] {
        assert names[0] !in parts && names[1] !in parts && names[2] !in parts;
      } else {
        assert parts[0] in names;
      }
    }
    Join(parts, " ")
  }

  /** Two name pieces side by side: one space between them when both are
      non-blank, and just the other one when either is blank. */
  function Beside(a: string, b: string): string {
    if a == "" then b else if b == "" then a else a + " " + b
  }

  /** An independent statement of the name rule: first, middle and last
      placed side by side in that order. */
  function SpacedName(f: string, m: string, l: string): string {
    Beside(Beside(f, m), l)
  }

  function Nonblank(s: string): seq<string> {
    if s == "" then [] else [s]
  }

  lemma NonEmptyPartsOfThree(f: string, m: string, l: string)
    ensures NonEmptyParts([f, m, l]) == Nonblank(f) + Nonblank(m) + Nonblank(l)
  {
    assert [f, m, l][..2] == [f, m] && [f, m][..1] == [f] && [f][..0] == [];
    assert NonEmptyParts([f]) == Nonblank(f);
    assert NonEmptyParts([f, m]) == NonEmptyParts([f]) + Nonblank(m);
    assert NonEmptyParts([f, m, l]) == NonEmptyParts([f, m]) + Nonblank(l);
  }

  /** Joining one more part adds the separator and the part. */
  lemma {:induction false} JoinAppend(parts: seq<string>, sep: string, x: string)
    ensures Join(parts + [x], sep) == if parts == [] then x else Join(parts, sep) + sep + x
    decreases |parts|
  {
    if |parts| == 1 {
      assert (parts + [x])[1..] == [x];
    } else if |parts| > 1 {
      assert (parts + [x])[1..] == parts[1..] + [x];
      JoinAppend(parts[1..], sep, x);
    }
  }

  /** Joining non-blank parts and then one more piece, if it is non-blank,
      puts that piece beside the joined text. */
  lemma JoinBeside(parts: seq<string>, x: string)
    requires forall k :: 0 <= k < |parts| ==> parts[k] != ""
    ensures Join(parts + Nonblank(x), " ") == Beside(Join(parts, " "), x)
  {
    JoinEmptyIff(parts, " ");
    if x == "" {
      assert parts + Nonblank(x) == parts;
    } else {
      JoinAppend(parts, " ", x);
    }
  }

  lemma JoinSpaced(f: string, m: string, l: string)
    ensures Join(Nonblank(f) + Nonblank(m) + Nonblank(l), " ") == SpacedName(f, m, l)
  {
    JoinBeside([], f);
    assert [] + Nonblank(f) == Nonblank(f);
    JoinBeside(Nonblank(f), m);
    JoinBeside(Nonblank(f) + Nonblank(m), l);
  }

  lemma {:induction false} FullNameSpaced(first: string, middle: string, last: string)
    ensures FullName(first, middle, last) == SpacedName(Strip(first), Strip(middle), Strip(last))
  {
    var f, m, l := Strip(first), Strip(middle), Strip(last);
    NonEmptyPartsOfThree(f, m, l);
    JoinSpaced(f, m, l);
  }

  /** The first branch of the parser: ten characters with exactly two
      hyphens, handed to `strptime(..., "%Y-%m-%d")`. */
  predicate IsFullDateShape(s: string) {
    |s| == 10 && CountChar(s, '-') == 2
  }

  /** The second branch: starts with `--` and has seven characters. */
  predicate IsYearlessShape(s: string) {
    |s| >= 2 && s[..2] == "--" && |s| == 7
  }

  /** The text handed to `strptime` for a year-less birthday: the current
      year as Python formats an int (no padding), a hyphen, then `MM-DD`. */
  function YearlessText(s: string, currentYear: nat): string
    requires IsYearlessShape(s)
  {
    Decimal(currentYear) + "-" + s[2..]
  }

  /** What the parser makes of a stripped, non-blank birthday. `Rejected` is
      the `ValueError` path (a diagnostic, no event); `Unrecognised` is the
      path where `birthday_date` stays `None` (no event, no diagnostic). */
  datatype Resolution = Resolved(date: Date) | Rejected | Unrecognised

  function ResolveBirthday(s: string, currentYear: nat): (r: Resolution)
    ensures r.Resolved? ==> ValidDate(r.date)
    ensures r.Unrecognised? <==> !IsFullDateShape(s) && !IsYearlessShape(s)
    ensures r.Resolved? && IsFullDateShape(s) ==> FormatIsoDate(r.date) == s
    ensures r.Resolved? && IsYearlessShape(s) ==>
      r.date.year == currentYear && FormatIsoDate(r.date) == Pad4(currentYear) + s[1..]
  {
    if IsFullDateShape(s) then
      match ParseIsoDate(s)
      case Some(d) => Resolved(d)
      case None => Rejected
    else if IsYearlessShape(s) then
      match ParseIsoDate(YearlessText(s, currentYear))
      case Some(d) =>
        YearlessYear(s, currentYear, d);
        Resolved(d)
      case None => Rejected
    else Unrecognised
  }

  lemma YearlessYear(s: string, currentYear: nat, d: Date)
    requires IsYearlessShape(s) && ValidDate(d) && FormatIsoDate(d) == YearlessText(s, currentYear)
    ensures d.year == currentYear && FormatIsoDate(d) == Pad4(currentYear) + s[1..]
  {
    var t := YearlessText(s, currentYear);
    DecimalFourIff(currentYear);
    assert |Decimal(currentYear)| == 4;
    assert t[..4] == Pad4(currentYear);
    assert FormatIsoDate(d)[..4] == Pad4(d.year);
    Read4Pad4(d.year);
    Read4Pad4(currentYear);
    assert s[1..] == "-" + s[2..];
  }

  /** Full-date form: the birthday yields a date exactly when it is the
      `YYYY-MM-DD` text of a real Gregorian date, and is otherwise rejected
      with a diagnostic. */
  lemma FullDateResolution(s: string, currentYear: nat)
    requires IsFullDateShape(s)
    ensures ResolveBirthday(s, currentYear).Resolved? <==>
      exists d :: ValidDate(d) && FormatIsoDate(d) == s
    ensures !ResolveBirthday(s, currentYear).Resolved? ==> ResolveBirthday(s, currentYear) == Rejected
  {
    ParseIsoDateIff(s);
  }

  /** Year-less form, for a current year with four digits: the birthday
      yields a date in the current year exactly when `MM-DD` names a real day
      of that year, and is otherwise rejected with a diagnostic. */
  lemma YearlessResolution(s: string, currentYear: nat)
    requires IsYearlessShape(s) && 1000 <= currentYear <= 9999
    ensures ResolveBirthday(s, currentYear).Resolved? <==>
      exists d :: ValidDate(d) && d.year == currentYear && FormatIsoDate(d) == Pad4(currentYear) + s[1..]
    ensures !ResolveBirthday(s, currentYear).Resolved? ==> ResolveBirthday(s, currentYear) == Rejected
  {
    DecimalFourIff(currentYear);
    assert YearlessText(s, currentYear) == Pad4(currentYear) + s[1..] by {
      assert s[1..] == "-" + s[2..];
    }
    ParseIsoDateIff(YearlessText(s, currentYear));
  }

  /** With a current year below 1000 the year-less text has fewer than four
      year digits, so `strptime` rejects every year-less birthday. */
  lemma YearlessShortYear(s: string, currentYear: nat)
    requires IsYearlessShape(s) && currentYear < 1000
    ensures ResolveBirthday(s, currentYear) == Rejected
  {
    DecimalShort(currentYear);
  }

  /** `--02-29` is accepted exactly in leap years, and then falls on
      February 29 of the current year. */
  lemma LeapDayYearless(currentYear: nat)
    requires 1000 <= currentYear <= 9999
    ensures ResolveBirthday("--02-29", currentYear).Resolved? <==> IsLeapYear(currentYear)
    ensures IsLeapYear(currentYear) ==> ResolveBirthday("--02-29", currentYear) == Resolved(Date(currentYear, 2, 29))
    ensures !IsLeapYear(currentYear) ==> ResolveBirthday("--02-29", currentYear) == Rejected
  {
    var s := "--02-29";
    assert IsYearlessShape(s);
    var t := YearlessText(s, currentYear);
    DecimalFourIff(currentYear);
    assert t == Pad4(currentYear) + "-02-29";
    var d := Date(currentYear, 2, 29);
    if IsLeapYear(currentYear) {
      assert ValidDate(d);
      assert FormatIsoDate(d) == t;
      ParseFormatIsoDate(d);
    } else {
      assert IsIsoShape(t);
      Read2Pad2(2);
      Read2Pad2(29);
      assert t[5..7] == Pad2(2) && t[8..10] == Pad2(29);
      assert Read2(t, 5) == Read2(t[5..7], 0);
      assert Read2(t, 8) == Read2(t[8..10], 0);
    }
  }

  /** Shapes outside both branches (a slash-separated date, free text) are
      passed over without a diagnostic. */
  lemma UnrecognisedExamples(currentYear: nat)
    ensures ResolveBirthday("05/15/1990", currentYear) == Unrecognised
    ensures ResolveBirthday("invalid-date", currentYear) == Unrecognised
  {
    assert "05/15/1990"[0] == '0';
    assert "invalid-date"[0] == 'i';
  }

  lemma February30Shape()
    ensures IsFullDateShape("2024-02-30")
  {
    var s := "2024-02-30";
    assert s == "2024" + ("-" + ("02" + ("-" + "30")));
    CountCharConcat("-", "30", '-');
    CountCharConcat("02", "-" + "30", '-');
    CountCharConcat("-", "02" + ("-" + "30"), '-');
    CountCharConcat("2024", "-" + ("02" + ("-" + "30")), '-');
  }

  /** An impossible calendar day in full-date form is rejected. */
  lemma February30Rejected(currentYear: nat)
    ensures ResolveBirthday("2024-02-30", currentYear) == Rejected
  {
    var s := "2024-02-30";
    February30Shape();
    assert IsIsoShape(s);
    assert Read2(s, 8) == 30;
    assert ParseIsoDate(s).None?;
  }
}
