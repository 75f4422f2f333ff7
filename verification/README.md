# Google Birthday Liberator, modelled in Dafny

The repository holds two Python scripts that turn a Google Contacts CSV export
into a birthday calendar:

- `filter_contacts_with_birthdays` keeps the header and every contact row
  whose `Birthday` cell is non-blank. It returns how many rows it kept and
  how many it removed.
- `create_birthday_ics` builds an iCalendar (RFC 5545) document with one
  yearly all-day event per contact that has a name and a usable birthday.
  Each event carries an e-mail alarm and a display alarm. The function
  returns the number of events.

This project models both functions as pure Dafny functions over a table. A
table is a `seq<seq<string>>` whose first row is the CSV header. Each script's
loop is also written as a method, proved equal to the pure function. The
surrounding I/O is not modelled.

Modules, one per file:

- `Wrappers`: `Option` and `Result`.
- `Text`: Python's `str.strip`, `" ".join`, `str.count` and `str.split`, over
  `seq<char>`. The whitespace set is exactly the one `str.isspace` accepts.
- `Digits`, `Gregorian`: zero-padded fields, Python's `str(n)`, and the
  proleptic Gregorian calendar of `datetime.date` (years 1 to 9999).
  - Parsing `YYYY-MM-DD` is `strptime(s, "%Y-%m-%d")`.
  - Formatting `YYYYMMDD` is `strftime("%Y%m%d")`.
- `Table`: `header.index`, the cell lookup that yields `""` for a short row,
  and the birthday gate both scripts share.
- `ContactFilter`: the filter script.
- `BirthdayRules`: how the builder composes a full name and classifies a
  birthday string.
- `BirthdayCalendar`: the builder, its 23-line event block and the document.
- `Sequences`: concatenation of equal-sized blocks, and the subsequence
  relation the filter's output keeps to its input.
- `Pipeline`: the two scripts run in sequence.
- `CalendarDocument`: reading the written document back line by line, and a
  worked example.

Three inputs of the builder come from the environment, so they are
parameters:

- `uid: nat -> string` is the `k`-th call of `uuid.uuid4()`, one per event in
  row order.
- `stamp` is the `DTSTAMP` text from `datetime.now()`.
- `currentYear` is `datetime.now().year`.

The diagnostics the builder prints are returned as a list of
`InvalidBirthday(name, birthday)` values.

The model follows the code in these details:

- A non-blank birthday that has neither the ten-character, two-hyphen shape
  nor the `--MM-DD` shape is passed over silently. Examples are `05/15/1990`
  and `invalid-date`. In the code `birthday_date` stays `None` and no
  `ValueError` is raised, so nothing is printed (`Unrecognised`). Only the
  two recognised shapes can lead to a diagnostic (`Rejected`).
- A year-less birthday is dated by formatting the current year with
  `f"{current_year}"` and parsing the result with `%Y`, which wants four
  digits. For a current year below 1000 every year-less birthday is
  therefore rejected (`YearlessShortYear`).
- Both alarms carry `TRIGGER:PT0S`, as the code writes it. The repository's
  tests look for `TRIGGER:-PT6H`, which the code never produces.
- The summary glyph is the four characters the script holds: U+00F0,
  U+0178, U+017D, U+201A. These are the UTF-8 bytes of U+1F382 read as
  Windows-1252.
- Names are written into `SUMMARY` and `DESCRIPTION` as they are. The code
  does not apply the TEXT escaping of section 3.3.11 of RFC 5545 (for `,`,
  `;`, `\` and line breaks). Only the first, middle and last name cells
  reach the document, so the written text splits back into the calendar's
  lines provided those cells, the identifiers and the stamp hold no
  line break (`CalendarDocument.DocumentSplitsIntoLines`).

## Model

| member | source | states |
|---|---|---|
| Table.IndexOf | filter_contacts.py:15 | `header.index(name)`: the result is the first position holding `name`, and it is absent exactly when `name` is not in the header |
| Table.HasBirthdayIff | filter_contacts.py:23 | the row gate `len(row) > i and row[i].strip()` holds exactly when the cell exists and is not all whitespace |
| Text.Strip | create_birthday_calendar.py:52 | `strip()` gives nothing exactly when the input is all whitespace; otherwise neither end of the result is whitespace |
| Text.StripIsInfix | create_birthday_calendar.py:52 | what `strip()` keeps is one contiguous slice of the input, and everything dropped on either side is whitespace |
| Text.StripIdempotent | filter_contacts.py:23 | stripping twice is stripping once |
| Text.StripFixedIff | create_birthday_calendar.py:34 | a cell is unchanged by `strip()` exactly when it is empty or neither end is whitespace |
| Text.JoinEmptyIff | create_birthday_calendar.py:47 | joining non-empty parts gives `""` exactly when there are no parts |
| Text.Join | create_birthday_calendar.py:47 | `sep.join(parts)`: a single part is returned unchanged |
| Text.SplitJoin | create_birthday_calendar.py:117 | splitting a `"\n".join` of newline-free lines at `\n` gives back the lines |
| Text.CountCharConcat | create_birthday_calendar.py:58 | `count("-")` of a concatenation is the sum of the counts |
| Text.CountChar | create_birthday_calendar.py:58 | `s.count(c)` is at most the length of `s`, and is zero exactly when `c` does not occur in `s` |
| ContactFilter.KeepRows | filter_contacts.py:20-24 | every kept row passes the birthday gate, and no more rows come out than went in |
| ContactFilter.KeepRowsMembership | filter_contacts.py:23-24 | a row is kept exactly when it is an input row that passes the gate |
| ContactFilter.KeepRowsIsSubsequence | filter_contacts.py:20-24 | the kept rows are the input rows, unmodified and in input order, with some deleted |
| ContactFilter.KeepRowsAllPass | filter_contacts.py:23-24 | when every row passes the gate, all rows come back unchanged |
| ContactFilter.NoneRemovedIff | filter_contacts.py:32 | nothing is removed exactly when every data row has a birthday |
| ContactFilter.KeptPlusRemoved | filter_contacts.py:21-32 | kept plus removed equals the number of data rows |
| ContactFilter.FilterContacts | filter_contacts.py:10-32 | an empty file is an error, and so is a header without `Birthday`; otherwise the header comes first, unchanged, `kept` is the number of output rows minus the header, and `kept + removed` is the number of data rows |
| ContactFilter.FilterContactsKeeps | filter_contacts.py:18-32 | after the header come exactly the data rows with a non-blank birthday, in input order, and `removed` counts the others |
| ContactFilter.FilterHeaderOnly | filter_contacts.py:31-32 | a header-only file gives `(0, 0)` and an output holding only the header |
| ContactFilter.FilterIdempotent | filter_contacts.py:23-24 | filtering a filtered table removes nothing and returns it unchanged |
| ContactFilter.CollectKept | filter_contacts.py:20-24 | the row loop collects exactly the rows that pass the gate, in order |
| ContactFilter.FilterContactsWithBirthdays | filter_contacts.py:5-38 | the script's procedure returns the same result and the same errors as the filter function |
| BirthdayCalendar.FindColumns | create_birthday_calendar.py:25-28 | the four columns are looked up in the order First, Middle, Last, Birthday; the first one missing is the error; each found index is the first occurrence of its name |
| BirthdayRules.NonEmptyParts | create_birthday_calendar.py:44-46 | the comprehension keeps exactly the non-empty parts |
| BirthdayRules.FullName | create_birthday_calendar.py:33-47 | the composed name is empty exactly when all three stripped parts are empty |
| BirthdayRules.FullNameSpaced | create_birthday_calendar.py:33-47 | the composed name equals the stripped first, middle and last names placed side by side, with one space between two non-blank pieces and blank pieces dropped |
| BirthdayRules.ResolveBirthday | create_birthday_calendar.py:55-76 | a resolved birthday is a valid date; a string with neither recognised shape is passed over; a full date resolves to the date its text spells; a year-less date lands in the current year |
| BirthdayRules.FullDateResolution | create_birthday_calendar.py:58-74 | in the full-date shape a birthday yields a date exactly when it is the `YYYY-MM-DD` text of a real date, and is otherwise rejected with a diagnostic |
| BirthdayRules.YearlessResolution | create_birthday_calendar.py:63-74 | in the `--MM-DD` shape, with a four-digit current year, a birthday yields a date exactly when `MM-DD` is a real day of the current year, and is otherwise rejected |
| BirthdayRules.YearlessShortYear | create_birthday_calendar.py:66-69 | with a current year below 1000, every year-less birthday is rejected |
| BirthdayRules.LeapDayYearless | create_birthday_calendar.py:63-74 | `--02-29` is accepted, as February 29 of the current year, exactly in leap years, and is rejected otherwise |
| BirthdayRules.February30Rejected | create_birthday_calendar.py:58-74 | `2024-02-30` has the full-date shape but is rejected |
| BirthdayCalendar.ProcessRow | create_birthday_calendar.py:30-74 | a row failing the birthday gate, or with an empty name, yields nothing; an accepted row carries its composed name and a valid date; a diagnostic names the contact and the stripped birthday |
| BirthdayCalendar.ProcessRowByBirthday | create_birthday_calendar.py:52-76 | for a named row with a birthday: an event exactly when the birthday resolves, a diagnostic exactly when it has a recognised shape but does not resolve, and nothing exactly when its shape is unrecognised |
| BirthdayCalendar.EntriesPlusDiagnostics | create_birthday_calendar.py:30-110 | every row adds at most one event or one diagnostic |
| BirthdayCalendar.Entries | create_birthday_calendar.py:30-110 | the events collected from the rows, in row order: at most one per row, each with a valid date |
| BirthdayCalendar.Diagnostics | create_birthday_calendar.py:30-74 | the invalid-birthday diagnostics printed while reading the rows, in row order: at most one per row |
| BirthdayCalendar.EventLines | create_birthday_calendar.py:82-107 | an event block has 23 lines, opening with `BEGIN:VEVENT` and closing with `END:VEVENT` |
| BirthdayCalendar.EventDates | create_birthday_calendar.py:79-87 | DTSTART and DTEND carry the same `YYYYMMDD` text, from which the event's date is recovered |
| BirthdayCalendar.EventAlarms | create_birthday_calendar.py:94-105 | the block holds exactly two VALARMs, an EMAIL one and then a DISPLAY one, each with `TRIGGER:PT0S` |
| BirthdayCalendar.BuildCalendar | create_birthday_calendar.py:10-113 | an empty file and a missing column are errors; otherwise the document is the 5 preamble lines, 23 lines per event and `END:VCALENDAR`, and the count is at most the number of data rows |
| BirthdayCalendar.BuildRows | create_birthday_calendar.py:82-113 | once the columns are found, the document is the 5 preamble lines, 23 lines per event and `END:VCALENDAR` last, and the count is at most the number of data rows |
| BirthdayCalendar.BuildRowsBlockAt | create_birthday_calendar.py:82-108 | after the preamble, the `k`-th 23-line block is the event of the `k`-th accepted contact with the `k`-th identifier |
| BirthdayCalendar.BuildHeaderOnly | create_birthday_calendar.py:10-16 | a header-only file gives no events and a six-line document |
| BirthdayCalendar.DocumentLines | create_birthday_calendar.py:117 | splitting the written text at newlines gives back the calendar's lines, provided no line holds a newline |
| BirthdayCalendar.CreateBirthdayIcs | create_birthday_calendar.py:6-122 | the script's one-pass procedure returns the same lines, count, diagnostics and errors as the builder function |
| Gregorian.ParseIsoDate | create_birthday_calendar.py:59-61 | a parsed date is valid and its `YYYY-MM-DD` text is the input |
| Gregorian.ParseFormatIsoDate | create_birthday_calendar.py:59-61 | every valid date is parsed back from its `YYYY-MM-DD` text |
| Gregorian.ParseIsoDateIff | create_birthday_calendar.py:59-61 | a string parses exactly when it is the `YYYY-MM-DD` text of some valid date |
| Gregorian.ParseFormatBasicDate | create_birthday_calendar.py:79 | the `YYYYMMDD` form loses nothing: the date is recovered from it |
| Gregorian.FormatBasicDate | create_birthday_calendar.py:79 | `strftime("%Y%m%d")` of a valid date is eight ASCII digits |
| Gregorian.BasicIsIsoWithoutHyphens | create_birthday_calendar.py:79 | the event date of a parsed full-date birthday is the birthday text with its hyphens removed |
| Digits.DecimalFourIff | create_birthday_calendar.py:68 | `f"{year}"` has four characters exactly for years 1000 to 9999, and then equals the zero-padded `%Y` field |
| Digits.Decimal | create_birthday_calendar.py:68 | `f"{n}"` is a non-empty string of ASCII digits |
| Digits.NumberDecimal | create_birthday_calendar.py:68 | reading `f"{n}"` back as a decimal number gives `n` |
| Pipeline.KeptRowsBuildTheSame | create_birthday_calendar.py:31 | dropping the rows the filter drops leaves the builder's events and diagnostics unchanged, because both scripts use the same gate |
| Pipeline.FilterThenBuild | create_birthday_calendar.py:30-31 | building from the filtered table gives the same calendar as building from the original table |
| Pipeline.FilteredEventCount | create_birthday_calendar.py:110 | the number of events is at most the number of rows the filter keeps |
| CalendarDocument.EntryNamesOnOneLine | create_birthday_calendar.py:33-47 | if no first, middle or last name cell holds a line break, no composed name does |
| CalendarDocument.EventLinesOnOneLine | create_birthday_calendar.py:82-107 | with a one-line identifier, name and stamp, every line of an event is a single line |
| CalendarDocument.DocumentSplitsIntoLines | create_birthday_calendar.py:113-117 | if no first, middle or last name cell, identifier or stamp holds a line break, splitting the written document at newlines gives back exactly the calendar's lines |
| CalendarDocument.OneAcceptedRow | create_birthday_calendar.py:82-110 | a table with one accepted row gives exactly one event, built with the first identifier, and no diagnostic |
| CalendarDocument.SampleBirthday | create_birthday_calendar.py:58-61 | `1990-05-15` resolves to May 15, 1990, whatever the current year |
| CalendarDocument.SampleEventDates | create_birthday_calendar.py:79-87 | that date is written as `19900515` on both DTSTART and DTEND |

## Left out

- File I/O and the CSV dialect. Reading the CSV, with its quoting and
  embedded newlines, and writing the filtered CSV are not modelled. The
  tables come in and go out as rows.
- The `__main__` blocks, including the backup `os.rename`. They are
  environment glue.
- The `print` summaries. The filter's counts are returned, and the builder's
  diagnostics are returned as values rather than printed.
- `uuid.uuid4()` and `datetime.now()`. They are parameters (`uid`, `stamp`,
  `currentYear`); the timestamp's format is not modelled.
- Gregorian.ParseIsoDate: models `strptime("%Y-%m-%d")` for ASCII digits and
  exactly two-digit month and day fields. Python also accepts a day written
  as a space and one digit (`1990-05- 5`), and non-ASCII Unicode digits.
  Those inputs are rejected here, so the model is stricter than the source
  on them.
- Gregorian.FormatBasicDate: always writes the year as four digits, so year
  999 gives `09990515`. On Linux, depending on the Python version, CPython's
  `strftime("%Y")` may write years below 1000 without leading zeros, giving
  `9990515`. That unpadded form is not modelled, and it can arise: a birthday
  such as `0999-05-15` parses to year 999.
- The clock is read once per run. The script calls `datetime.now()` again
  for each event's `DTSTAMP` and for each year-less birthday. The model uses
  one `stamp` and one `currentYear` for the whole run, so it does not cover a
  run that crosses a second or a new year.
- Errors other than an empty file and a missing column are not modelled.
  These include I/O errors, decoding errors and the CSV reader's own errors.
  They are raised by library code outside the model.
