/** `create_birthday_ics`: one yearly all-day VEVENT with two VALARMs per
    contact with a name and a usable birthday, framed by a fixed VCALENDAR
    preamble and closing line. The UUID supply, the DTSTAMP text and the
    current year are parameters; the file reading and writing are left out. */
module BirthdayCalendar {
  import opened Wrappers
  import opened Text
  import opened Gregorian
  import opened Table
  import opened BirthdayRules
  import opened Sequences

  const FirstNameColumn := "First Name"
  const MiddleNameColumn := "Middle Name"
  const LastNameColumn := "Last Name"

  /** Positions of the four columns, looked up once in the header. */
  datatype Columns = Columns(first: nat, middle: nat, last: nat, birthday: nat)

  /** The header lookups, in the order the script makes them; the first
      missing column fails the run. */
  function FindColumns(header: Row): (r: Result<Columns, Error>)
    ensures FirstNameColumn !in header ==> r == Failure(MissingColumn(FirstNameColumn))
    ensures FirstNameColumn in header && MiddleNameColumn !in header ==> r == Failure(MissingColumn(MiddleNameColumn))
    ensures FirstNameColumn in header && MiddleNameColumn in header && LastNameColumn !in header ==>
      r == Failure(MissingColumn(LastNameColumn))
    ensures FirstNameColumn in header && MiddleNameColumn in header && LastNameColumn in header && BirthdayColumn !in header ==>
      r == Failure(MissingColumn(BirthdayColumn))
    ensures r.Success? ==> var c := r.value;
      && c.first < |header| && header[c.first] == FirstNameColumn && FirstNameColumn !in header[..c.first]
      && c.middle < |header| && header[c.middle] == MiddleNameColumn && MiddleNameColumn !in header[..c.middle]
      && c.last < |header| && header[c.last] == LastNameColumn && LastNameColumn !in header[..c.last]
      && c.birthday < |header| && header[c.birthday] == BirthdayColumn && BirthdayColumn !in header[..c.birthday]
  {
    var first := IndexOf(header, FirstNameColumn);
    var middle := IndexOf(header, MiddleNameColumn);
    var last := IndexOf(header, LastNameColumn);
    var birthday := IndexOf(header, BirthdayColumn);
    if first.None? then Failure(MissingColumn(FirstNameColumn))
    else if middle.None? then Failure(MissingColumn(MiddleNameColumn))
    else if last.None? then Failure(MissingColumn(LastNameColumn))
    else if birthday.None? then Failure(MissingColumn(BirthdayColumn))
    else Success(Columns(first.value, middle.value, last.value, birthday.value))
  }

  /** A contact that gets an event: its full name and resolved date. */
  datatype Entry = Entry(name: string, date: Date)

  /** The "Skipping ... - invalid birthday format: ..." message, as the
      contact's name and the stripped birthday. */
  datatype Diagnostic = InvalidBirthday(name: string, birthday: string)

  datatype RowOutcome = Ignored | Diagnosed(diagnostic: Diagnostic) | Accepted(entry: Entry)

  function RowName(row: Row, cols: Columns): string {
    FullName(Cell(row, cols.first), Cell(row, cols.middle), Cell(row, cols.last))
  }

  /** One pass of the loop body. */
  function ProcessRow(row: Row, cols: Columns, currentYear: nat): (o: RowOutcome)
    ensures !HasBirthday(row, cols.birthday) ==> o == Ignored
    ensures RowName(row, cols) == "" ==> o == Ignored
    ensures o.Accepted? ==> ValidDate(o.entry.date) && o.entry.name == RowName(row, cols) && o.entry.name != ""
    ensures o.Diagnosed? ==> o.diagnostic == InvalidBirthday(RowName(row, cols), Strip(row[cols.birthday]))
  {
    if !HasBirthday(row, cols.birthday) then Ignored
    else
      var name := RowName(row, cols);
      if name == "" then Ignored
      else
        var birthday := Strip(row[cols.birthday]);
        match ResolveBirthday(birthday, currentYear)
        case Resolved(d) => Accepted(Entry(name, d))
        case Rejected => Diagnosed(InvalidBirthday(name, birthday))
        case Unrecognised => Ignored
  }

  /** For a row with a name and a non-blank birthday the outcome is decided
      by the birthday alone: an event for a resolved date, a diagnostic for a
      rejected one, and silence for an unrecognised shape. */
  lemma ProcessRowByBirthday(row: Row, cols: Columns, currentYear: nat)
    requires HasBirthday(row, cols.birthday) && RowName(row, cols) != ""
    ensures var b := Strip(row[cols.birthday]);
      var o := ProcessRow(row, cols, currentYear);
      && (o.Accepted? <==> ResolveBirthday(b, currentYear).Resolved?)
      && (o.Accepted? ==> o.entry.date == ResolveBirthday(b, currentYear).date)
      && (o.Diagnosed? <==> (IsFullDateShape(b) || IsYearlessShape(b)) && !ResolveBirthday(b, currentYear).Resolved?)
      && (o.Ignored? <==> !IsFullDateShape(b) && !IsYearlessShape(b))
  {
  }

  predicate AllValid(entries: seq<Entry>) {
    forall k :: 0 <= k < |entries| ==> ValidDate(entries[k].date)
  }

  lemma AllValidAppend(entries: seq<Entry>, e: Entry)
    requires AllValid(entries) && ValidDate(e.date)
    ensures AllValid(entries + [e])
  {
    assert forall k :: 0 <= k < |entries| ==> (entries + [e])[k] == entries[k];
  }

  /** The contacts that get events, in row order. */
  function Entries(rows: seq<Row>, cols: Columns, currentYear: nat): (entries: seq<Entry>)
    ensures |entries| <= |rows|
    ensures AllValid(entries)
  {
    if rows == [] then []
    else
      var prefix := Entries(rows[..|rows| - 1], cols, currentYear);
      match ProcessRow(rows[|rows| - 1], cols, currentYear)
      case Accepted(e) =>
        AllValidAppend(prefix, e);
        prefix + [e]
      case _ => prefix
  }

  /** The diagnostics, in row order. */
  function Diagnostics(rows: seq<Row>, cols: Columns, currentYear: nat): (diagnostics: seq<Diagnostic>)
    ensures |diagnostics| <= |rows|
  {
    if rows == [] then []
    else
      var prefix := Diagnostics(rows[..|rows| - 1], cols, currentYear);
      match ProcessRow(rows[|rows| - 1], cols, currentYear)
      case Diagnosed(d) => prefix + [d]
      case _ => prefix
  }

  /** Taking one more row adds its event or its diagnostic, if any. */
  lemma RowStep(rows: seq<Row>, cols: Columns, currentYear: nat, i: nat)
    requires i < |rows|
    ensures var o := ProcessRow(rows[i], cols, currentYear);
      && Entries(rows[..i + 1], cols, currentYear)
           == Entries(rows[..i], cols, currentYear) + (if o.Accepted? then [o.entry] else [])
      && Diagnostics(rows[..i + 1], cols, currentYear)
           == Diagnostics(rows[..i], cols, currentYear) + (if o.Diagnosed? then [o.diagnostic] else [])
  {
    assert rows[..i + 1][..i] == rows[..i] && rows[..i + 1][i] == rows[i];
  }

  /** Every row yields at most one of an event and a diagnostic. */
  lemma {:induction false} EntriesPlusDiagnostics(rows: seq<Row>, cols: Columns, currentYear: nat)
    ensures |Entries(rows, cols, currentYear)| + |Diagnostics(rows, cols, currentYear)| <= |rows|
  {
    if rows != [] {
      EntriesPlusDiagnostics(rows[..|rows| - 1], cols, currentYear);
    }
  }

  /** The glyph in front of the summaries, as the characters the script
      holds (the UTF-8 bytes of U+1F382 read as Windows-1252). */
  const Cake := "\U{F0}\U{178}\U{17D}\U{201A}"

  const EventLineCount := 23
  const DtStartPrefix := "DTSTART;VALUE=DATE:"
  const DtEndPrefix := "DTEND;VALUE=DATE:"

  /** The ten lines that open an event: identifier, the all-day date on
      DTSTART and DTEND, summary, description, yearly recurrence and stamp. */
  function EventHead(uid: string, e: Entry, stamp: string): (lines: seq<string>)
    requires ValidDate(e.date)
    ensures |lines| == 10 && lines[0] == "BEGIN:VEVENT"
  {
    var date := FormatBasicDate(e.date);
    [ "BEGIN:VEVENT",
      "UID:" + uid,
      DtStartPrefix + date,
      DtEndPrefix + date,
      "SUMMARY:" + Cake + " " + e.name + "'s Birthday",
      "DESCRIPTION:Birthday of " + e.name + " - Remember to call and congratulate!",
      "RRULE:FREQ=YEARLY",
      "TRANSP:TRANSPARENT",
      "CLASS:PUBLIC",
      "DTSTAMP:" + stamp ]
  }

  /** One VALARM component, firing at the start of the event. */
  function Alarm(action: string, summary: string, description: string): (lines: seq<string>)
    ensures |lines| == 6 && lines[0] == "BEGIN:VALARM" && lines[5] == "END:VALARM"
  {
    [ "BEGIN:VALARM",
      "TRIGGER:PT0S",
      "ACTION:" + action,
      "SUMMARY:" + summary,
      "DESCRIPTION:" + description,
      "END:VALARM" ]
  }

  /** The reminder text both alarms carry. */
  function Reminder(name: string): string {
    "Don't forget to call " + name + " today to wish them a happy birthday! " + Cake
  }

  /** The 23 lines of one birthday event: the head, an EMAIL alarm, a
      DISPLAY alarm and the closing line. */
  function EventLines(uid: string, e: Entry, stamp: string): (lines: seq<string>)
    requires ValidDate(e.date)
    ensures |lines| == EventLineCount
    ensures lines[0] == "BEGIN:VEVENT" && lines[EventLineCount - 1] == "END:VEVENT"
  {
    EventHead(uid, e, stamp)
      + Alarm("EMAIL", "Today is " + e.name + "'s Birthday! " + Cake, Reminder(e.name))
      + Alarm("DISPLAY", Cake + " " + e.name + "'s Birthday!", Reminder(e.name))
      + ["END:VEVENT"]
  }

  /** DTSTART and DTEND both carry the event's date as an RFC 5545 DATE
      value, from which the date is recovered unchanged. */
  lemma EventDates(uid: string, e: Entry, stamp: string)
    requires ValidDate(e.date)
    ensures var lines := EventLines(uid, e, stamp);
      && lines[2][..|DtStartPrefix|] == DtStartPrefix
      && lines[3][..|DtEndPrefix|] == DtEndPrefix
      && lines[2][|DtStartPrefix|..] == lines[3][|DtEndPrefix|..]
      && ParseBasicDate(lines[2][|DtStartPrefix|..]) == Some(e.date)
  {
    var lines := EventLines(uid, e, stamp);
    assert lines[2][|DtStartPrefix|..] == FormatBasicDate(e.date);
    assert lines[3][|DtEndPrefix|..] == FormatBasicDate(e.date);
    ParseFormatBasicDate(e.date);
  }

  /** The block holds exactly two VALARM components: an EMAIL one and then a
      DISPLAY one, each firing at the start of the event. */
  lemma EventAlarms(uid: string, e: Entry, stamp: string)
    requires ValidDate(e.date)
    ensures var lines := EventLines(uid, e, stamp);
      && (forall j :: 0 <= j < |lines| && lines[j] == "BEGIN:VALARM" ==> j == 10 || j == 16)
      && (forall j :: 0 <= j < |lines| && lines[j] == "END:VALARM" ==> j == 15 || j == 21)
      && lines[10] == "BEGIN:VALARM" && lines[11] == "TRIGGER:PT0S" && lines[12] == "ACTION:EMAIL" && lines[15] == "END:VALARM"
      && lines[16] == "BEGIN:VALARM" && lines[17] == "TRIGGER:PT0S" && lines[18] == "ACTION:DISPLAY" && lines[21] == "END:VALARM"
  {
    var lines := EventLines(uid, e, stamp);
    forall j | 0 <= j < |lines| && lines[j] == "BEGIN:VALARM" ensures j == 10 || j == 16 {
      assert lines[j][0] == 'B';
    }
    forall j | 0 <= j < |lines| && lines[j] == "END:VALARM" ensures j == 15 || j == 21 {
      assert lines[j][0] == 'E';
    }
  }

  /** One block per entry, the `k`-th built with the `k`-th identifier
      (`uuid.uuid4()` is called once per event, in row order). */
  function EventBlocks(entries: seq<Entry>, uid: nat -> string, stamp: string): (blocks: seq<seq<string>>)
    requires AllValid(entries)
    ensures |blocks| == |entries| && UniformSize(blocks, EventLineCount)
  {
    var blocks := seq(|entries|, k requires 0 <= k < |entries| => EventLines(uid(k), entries[k], stamp));
    assert forall i :: 0 <= i < |blocks| ==> blocks[i] == EventLines(uid(i), entries[i], stamp);
    blocks
  }

  /** Appending an entry appends its block, with the next identifier. */
  lemma EventBlocksAppend(entries: seq<Entry>, e: Entry, uid: nat -> string, stamp: string)
    requires AllValid(entries) && ValidDate(e.date)
    ensures AllValid(entries + [e])
    ensures EventBlocks(entries + [e], uid, stamp) == EventBlocks(entries, uid, stamp) + [EventLines(uid(|entries|), e, stamp)]
  {
    var all := entries + [e];
    assert forall k :: 0 <= k < |entries| ==> all[k] == entries[k];
  }

  /** The product identifier, a formal public identifier naming the owner,
      the product and the language (section 3.7.3 of RFC 5545). */
  const ProductOwner := "Google Birthday Liberator"
  const ProductName := "Birthday Events"
  const ProductId := "-//" + ProductOwner + "//" + ProductName + "//EN"

  const Preamble: seq<string> := [
    "BEGIN:VCALENDAR",
    "VERSION:2.0",
    "PRODID:" + ProductId,
    "CALSCALE:GREGORIAN",
    "METHOD:PUBLISH"
  ]
  const Closing := "END:VCALENDAR"

  /** What one run produces: the lines of the calendar, the event count it
      returns and the diagnostics it prints. */
  datatype Calendar = Calendar(lines: seq<string>, count: nat, diagnostics: seq<Diagnostic>)

  /** The builder as a whole. `table[0]` is the header; the rest are data
      rows. */
  function BuildCalendar(table: seq<Row>, uid: nat -> string, stamp: string, currentYear: nat): (r: Result<Calendar, Error>)
    ensures table == [] ==> r == Failure(EmptyInput)
    ensures table != [] && FindColumns(table[0]).Failure? ==> r == Failure(FindColumns(table[0]).error)
    ensures r.Success? <==> table != [] && FindColumns(table[0]).Success?
    ensures r.Success? ==> var c := r.value;
      && |c.lines| == |Preamble| + EventLineCount * c.count + 1
      && c.lines[..|Preamble|] == Preamble
      && c.lines[|c.lines| - 1] == Closing
      && c.count <= |table| - 1
  {
    if table == [] then Failure(EmptyInput)
    else
      match FindColumns(table[0])
      case Failure(e) => Failure(e)
      case Success(cols) => Success(BuildRows(table[1..], cols, uid, stamp, currentYear))
  }

  /** The calendar for the data rows once the columns are known. */
  function BuildRows(rows: seq<Row>, cols: Columns, uid: nat -> string, stamp: string, currentYear: nat): (c: Calendar)
    ensures |c.lines| == |Preamble| + EventLineCount * c.count + 1
    ensures c.lines[..|Preamble|] == Preamble && c.lines[|c.lines| - 1] == Closing
    ensures c.count <= |rows|
  {
    var entries := Entries(rows, cols, currentYear);
    var blocks := EventBlocks(entries, uid, stamp);
    FlattenLength(blocks, EventLineCount);
    SliceOfFirst(Preamble + Flatten(blocks), [Closing], 0, |Preamble|);
    SliceOfFirst(Preamble, Flatten(blocks), 0, |Preamble|);
    Calendar(Preamble + Flatten(blocks) + [Closing], |entries|, Diagnostics(rows, cols, currentYear))
  }

  /** The document in row order: after the preamble, the `k`-th 23-line
      block is the event of the `k`-th accepted contact with the `k`-th
      identifier. */
  lemma BuildRowsBlockAt(rows: seq<Row>, cols: Columns, uid: nat -> string, stamp: string, currentYear: nat, k: nat)
    requires k < |Entries(rows, cols, currentYear)|
    ensures var lines := BuildRows(rows, cols, uid, stamp, currentYear).lines;
      lines[|Preamble| + EventLineCount * k..|Preamble| + EventLineCount * k + EventLineCount]
        == EventLines(uid(k), Entries(rows, cols, currentYear)[k], stamp)
  {
    var entries := Entries(rows, cols, currentYear);
    var blocks := EventBlocks(entries, uid, stamp);
    FlattenBlockAt(blocks, EventLineCount, k);
    SliceOfMiddle(Preamble, Flatten(blocks), [Closing], EventLineCount * k, EventLineCount * k + EventLineCount);
  }

  /** A header-only table gives no events and the six framing lines. */
  lemma BuildHeaderOnly(header: Row, uid: nat -> string, stamp: string, currentYear: nat)
    requires FindColumns(header).Success?
    ensures BuildCalendar([header], uid, stamp, currentYear) == Success(Calendar(Preamble + [Closing], 0, []))
    ensures |Preamble + [Closing]| == 6
  {
    assert [header][1..] == [];
  }

  /** The text written to the file: the lines joined with newlines. */
  function Document(c: Calendar): string {
    Join(c.lines, "\n")
  }

  /** Reading the document back line by line gives exactly the calendar's
      lines, provided none of the inserted texts holds a newline. */
  lemma DocumentLines(c: Calendar)
    requires |c.lines| >= 1
    requires forall k :: 0 <= k < |c.lines| ==> NoNewline(c.lines[k])
    ensures Split(Document(c), '\n') == c.lines
  {
    SplitJoin(c.lines, '\n');
  }

  /** What the script's loop carries after some rows: the lines so far, the
      event count and the diagnostics printed. */
  datatype Progress = Progress(content: seq<string>, processed: nat, diagnostics: seq<Diagnostic>)

  function ProgressAfter(rows: seq<Row>, cols: Columns, uid: nat -> string, stamp: string, currentYear: nat): Progress {
    var entries := Entries(rows, cols, currentYear);
    Progress(Preamble + Flatten(EventBlocks(entries, uid, stamp)), |entries|, Diagnostics(rows, cols, currentYear))
  }

  /** One more row: an accepted row appends its block with the next
      identifier and bumps the count, a rejected one adds its diagnostic. */
  lemma ProgressStep(rows: seq<Row>, cols: Columns, uid: nat -> string, stamp: string, currentYear: nat, i: nat)
    requires i < |rows|
    ensures var p := ProgressAfter(rows[..i], cols, uid, stamp, currentYear);
      ProgressAfter(rows[..i + 1], cols, uid, stamp, currentYear) ==
        match ProcessRow(rows[i], cols, currentYear)
        case Accepted(e) => Progress(p.content + EventLines(uid(p.processed), e, stamp), p.processed + 1, p.diagnostics)
        case Diagnosed(d) => Progress(p.content, p.processed, p.diagnostics + [d])
        case Ignored => p
  {
    RowStep(rows, cols, currentYear, i);
    var before := Entries(rows[..i], cols, currentYear);
    var after := Entries(rows[..i + 1], cols, currentYear);
    var o := ProcessRow(rows[i], cols, currentYear);
    if o.Accepted? {
      assert after == before + [o.entry];
      ContentAppend(before, o.entry, uid, stamp);
    } else {
      assert after == before;
    }
  }

  lemma ContentAppend(entries: seq<Entry>, e: Entry, uid: nat -> string, stamp: string)
    requires AllValid(entries) && ValidDate(e.date)
    ensures AllValid(entries + [e])
    ensures Preamble + Flatten(EventBlocks(entries + [e], uid, stamp))
      == Preamble + Flatten(EventBlocks(entries, uid, stamp)) + EventLines(uid(|entries|), e, stamp)
  {
    EventBlocksAppend(entries, e, uid, stamp);
    FlattenAppend(EventBlocks(entries, uid, stamp), EventLines(uid(|entries|), e, stamp));
  }

  /** The builder as the script runs it: one pass over the rows that appends
      each event's lines and counts them. */
  method CreateBirthdayIcs(table: seq<Row>, uid: nat -> string, stamp: string, currentYear: nat)
    returns (r: Result<Calendar, Error>)
    ensures r == BuildCalendar(table, uid, stamp, currentYear)
  {
    if table == [] {
      return Failure(EmptyInput);
    }
    var found := FindColumns(table[0]);
    if found.Failure? {
      return Failure(found.error);
    }
    var cols := found.value;
    var rows := table[1..];
    var content := Preamble;
    var processed := 0;
    var diagnostics := [];
    var i := 0;
    while i < |rows|
      invariant 0 <= i <= |rows|
      invariant Progress(content, processed, diagnostics) == ProgressAfter(rows[..i], cols, uid, stamp, currentYear)
    {
      ghost var next := ProgressAfter(rows[..i + 1], cols, uid, stamp, currentYear);
      ProgressStep(rows, cols, uid, stamp, currentYear, i);
      match ProcessRow(rows[i], cols, currentYear) {
        case Accepted(e) =>
          content := content + EventLines(uid(processed), e, stamp);
          processed := processed + 1;
        case Diagnosed(d) =>
          diagnostics := diagnostics + [d];
        case Ignored =>
      }
      assert Progress(content, processed, diagnostics) == next;
      i := i + 1;
    }
    assert rows[..i] == rows;
    content := content + [Closing];
    r := Success(Calendar(content, processed, diagnostics));
  }
}
