/** The calendar document as text, and worked examples of whole runs. */
module CalendarDocument {
  import opened Wrappers
  import opened Text
  import opened Gregorian
  import opened Table
  import opened Sequences
  import opened BirthdayRules
  import opened BirthdayCalendar

  /** None of the three cells a name is composed from holds a line break;
      the other cells never reach the document. */
  predicate NameCellsOnOneLine(row: Row, cols: Columns) {
    && NoNewline(Cell(row, cols.first))
    && NoNewline(Cell(row, cols.middle))
    && NoNewline(Cell(row, cols.last))
  }

  /** No name cell of any data row holds a line break. */
  predicate CellsOnOneLine(rows: seq<Row>, cols: Columns) {
    forall row :: row in rows ==> NameCellsOnOneLine(row, cols)
  }

  lemma RowNameOnOneLine(row: Row, cols: Columns)
    requires NameCellsOnOneLine(row, cols)
    ensures NoNewline(RowName(row, cols))
  {
    var cells := [Cell(row, cols.first), Cell(row, cols.middle), Cell(row, cols.last)];
    StripKeepsOut(cells[0], '\n');
    StripKeepsOut(cells[1], '\n');
    StripKeepsOut(cells[2], '\n');
    var parts := NonEmptyParts([Strip(cells[0]), Strip(cells[1]), Strip(cells[2])]);
    forall k | 0 <= k < |parts| ensures NoNewline(parts[k]) {
      assert parts[k] in parts;
    }
    JoinKeepsOut(parts, " ", '\n');
  }

  predicate NamesOnOneLine(entries: seq<Entry>) {
    forall k :: 0 <= k < |entries| ==> NoNewline(entries[k].name)
  }

  lemma NamesAppend(entries: seq<Entry>, e: Entry)
    requires NamesOnOneLine(entries) && NoNewline(e.name)
    ensures NamesOnOneLine(entries + [e])
  {
    var after := entries + [e];
    assert forall k :: 0 <= k < |after| ==> after[k] == (if k < |entries| then entries[k] else e);
  }

  lemma AcceptedOnOneLine(row: Row, cols: Columns, currentYear: nat)
    requires NameCellsOnOneLine(row, cols)
    requires ProcessRow(row, cols, currentYear).Accepted?
    ensures NoNewline(ProcessRow(row, cols, currentYear).entry.name)
  {
    RowNameOnOneLine(row, cols);
  }

  lemma {:induction false} EntryNamesOnOneLine(rows: seq<Row>, cols: Columns, currentYear: nat)
    requires CellsOnOneLine(rows, cols)
    ensures NamesOnOneLine(Entries(rows, cols, currentYear))
  {
    if rows != [] {
      var i := |rows| - 1;
      var prefix := rows[..i];
      assert CellsOnOneLine(prefix, cols) by {
        assert forall row :: row in prefix ==> row in rows;
      }
      EntryNamesOnOneLine(prefix, cols, currentYear);
      RowStep(rows, cols, currentYear, i);
      assert rows[..i + 1] == rows;
      var o := ProcessRow(rows[i], cols, currentYear);
      if o.Accepted? {
        assert rows[i] in rows;
        AcceptedOnOneLine(rows[i], cols, currentYear);
        NamesAppend(Entries(prefix, cols, currentYear), o.entry);
      }
    }
  }

  lemma AlarmOnOneLine(action: string, summary: string, description: string)
    requires NoNewline(action) && NoNewline(summary) && NoNewline(description)
    ensures forall k :: 0 <= k < 6 ==> NoNewline(Alarm(action, summary, description)[k])
  {
    var lines := Alarm(action, summary, description);
    assert lines[2] == "ACTION:" + action;
    assert lines[3] == "SUMMARY:" + summary;
    assert lines[4] == "DESCRIPTION:" + description;
  }

  lemma SummaryOnOneLine(name: string)
    requires NoNewline(name)
    ensures NoNewline("SUMMARY:" + Cake + " " + name + "'s Birthday")
  {
    assert NoNewline(Cake);
  }

  lemma DescriptionOnOneLine(name: string)
    requires NoNewline(name)
    ensures NoNewline("DESCRIPTION:Birthday of " + name + " - Remember to call and congratulate!")
  {
  }

  lemma DateOnOneLine(d: Date)
    requires ValidDate(d)
    ensures NoNewline(DtStartPrefix + FormatBasicDate(d)) && NoNewline(DtEndPrefix + FormatBasicDate(d))
  {
    var date := FormatBasicDate(d);
    assert NoNewline(date) by {
      assert forall k :: 0 <= k < |date| ==> date[k] != '\n';
    }
  }

  lemma HeadOnOneLine(uid: string, e: Entry, stamp: string)
    requires ValidDate(e.date) && NoNewline(uid) && NoNewline(e.name) && NoNewline(stamp)
    ensures forall k :: 0 <= k < 10 ==> NoNewline(EventHead(uid, e, stamp)[k])
  {
    DateOnOneLine(e.date);
    SummaryOnOneLine(e.name);
    DescriptionOnOneLine(e.name);
  }

  lemma ReminderOnOneLine(name: string)
    requires NoNewline(name)
    ensures NoNewline(Reminder(name))
  {
    ReminderTextOnOneLine();
    assert NoNewline(Cake);
  }

  /** The fixed text around the name in the e-mail reminder. */
  lemma ReminderTextOnOneLine()
    ensures NoNewline("Don't forget to call ")
    ensures NoNewline(" today to wish them a happy birthday! ")
  {
  }

  lemma AlarmTextsOnOneLine(name: string)
    requires NoNewline(name)
    ensures NoNewline("Today is " + name + "'s Birthday! " + Cake)
    ensures NoNewline(Cake + " " + name + "'s Birthday!")
  {
    assert NoNewline(Cake);
  }

  /** With a one-line identifier, name and stamp, each of the 23 lines of an
      event is a single line. */
  lemma EventLinesOnOneLine(uid: string, e: Entry, stamp: string)
    requires ValidDate(e.date) && NoNewline(uid) && NoNewline(e.name) && NoNewline(stamp)
    ensures forall k :: 0 <= k < EventLineCount ==> NoNewline(EventLines(uid, e, stamp)[k])
  {
    var head := EventHead(uid, e, stamp);
    var email := Alarm("EMAIL", "Today is " + e.name + "'s Birthday! " + Cake, Reminder(e.name));
    var display := Alarm("DISPLAY", Cake + " " + e.name + "'s Birthday!", Reminder(e.name));
    AlarmTextsOnOneLine(e.name);
    ReminderOnOneLine(e.name);
    HeadOnOneLine(uid, e, stamp);
    AlarmOnOneLine("EMAIL", "Today is " + e.name + "'s Birthday! " + Cake, Reminder(e.name));
    AlarmOnOneLine("DISPLAY", Cake + " " + e.name + "'s Birthday!", Reminder(e.name));
    var lines := EventLines(uid, e, stamp);
    assert lines == head + email + display + ["END:VEVENT"];
    forall k | 0 <= k < EventLineCount ensures NoNewline(lines[k]) {
      if k < 10 {
        assert lines[k] == head[k];
      } else if k < 16 {
        assert lines[k] == email[k - 10];
      } else if k < 22 {
        assert lines[k] == display[k - 16];
      }
    }
  }

  /** Every line of the event blocks is a single line. */
  lemma BlocksOnOneLine(entries: seq<Entry>, uid: nat -> string, stamp: string)
    requires AllValid(entries) && NoNewline(stamp) && forall k :: NoNewline(uid(k))
    requires NamesOnOneLine(entries)
    ensures forall x :: x in Flatten(EventBlocks(entries, uid, stamp)) ==> NoNewline(x)
  {
    var blocks := EventBlocks(entries, uid, stamp);
    forall x | x in Flatten(blocks) ensures NoNewline(x) {
      FlattenMember(blocks, x);
      var k :| 0 <= k < |blocks| && x in blocks[k];
      EventLinesOnOneLine(uid(k), entries[k], stamp);
      var j :| 0 <= j < |blocks[k]| && blocks[k][j] == x;
    }
  }

  lemma ProductIdOnOneLine()
    ensures NoNewline("PRODID:" + ProductId)
  {
    assert NoNewline(ProductOwner) && NoNewline(ProductName);
  }

  lemma FramingOnOneLine()
    ensures forall k :: 0 <= k < |Preamble| ==> NoNewline(Preamble[k])
    ensures NoNewline(Closing)
  {
    assert NoNewline(Preamble[0]);
    assert NoNewline(Preamble[1]);
    ProductIdOnOneLine();
    assert NoNewline(Preamble[3]);
    assert NoNewline(Preamble[4]);
  }

  /** Framing one-line event lines keeps every line a single line. */
  lemma FramedOnOneLine(body: seq<string>)
    requires forall x :: x in body ==> NoNewline(x)
    ensures forall k :: 0 <= k < |Preamble + body + [Closing]| ==> NoNewline((Preamble + body + [Closing])[k])
  {
    var lines := Preamble + body + [Closing];
    FramingOnOneLine();
    forall k | 0 <= k < |lines| ensures NoNewline(lines[k]) {
      if k < |Preamble| {
        assert lines[k] == Preamble[k];
      } else if k < |Preamble| + |body| {
        assert lines[k] == body[k - |Preamble|] && body[k - |Preamble|] in body;
      }
    }
  }

  /** Every line the builder emits for the data rows is a single line. */
  lemma RowsOnOneLine(rows: seq<Row>, cols: Columns, uid: nat -> string, stamp: string, currentYear: nat)
    requires CellsOnOneLine(rows, cols)
    requires NoNewline(stamp) && forall k :: NoNewline(uid(k))
    ensures var c := BuildRows(rows, cols, uid, stamp, currentYear);
      forall k :: 0 <= k < |c.lines| ==> NoNewline(c.lines[k])
  {
    var entries := Entries(rows, cols, currentYear);
    var body := Flatten(EventBlocks(entries, uid, stamp));
    EntryNamesOnOneLine(rows, cols, currentYear);
    BlocksOnOneLine(entries, uid, stamp);
    FramedOnOneLine(body);
  }

  /** Reading the written document back line by line gives exactly the
      calendar's lines: the preamble, 23 lines per event and the closing
      line, provided no name cell, identifier or stamp holds a line break. */
  lemma DocumentSplitsIntoLines(table: seq<Row>, uid: nat -> string, stamp: string, currentYear: nat)
    requires BuildCalendar(table, uid, stamp, currentYear).Success?
    requires CellsOnOneLine(table[1..], FindColumns(table[0]).value)
    requires NoNewline(stamp) && forall k :: NoNewline(uid(k))
    ensures var c := BuildCalendar(table, uid, stamp, currentYear).value;
      Split(Document(c), '\n') == c.lines
  {
    var cols := FindColumns(table[0]).value;
    var c := BuildRows(table[1..], cols, uid, stamp, currentYear);
    assert BuildCalendar(table, uid, stamp, currentYear).value == c;
    RowsOnOneLine(table[1..], cols, uid, stamp, currentYear);
    DocumentLines(c);
  }

  lemma OneRowEntries(row: Row, cols: Columns, e: Entry, currentYear: nat)
    requires ProcessRow(row, cols, currentYear) == Accepted(e)
    ensures Entries([row], cols, currentYear) == [e] && Diagnostics([row], cols, currentYear) == []
  {
    assert [row][..|[row]| - 1] == [] && [row][|[row]| - 1] == row;
    assert Entries([], cols, currentYear) == [] && Diagnostics([], cols, currentYear) == [];
  }

  lemma SingleBlock(e: Entry, uid: nat -> string, stamp: string)
    requires ValidDate(e.date)
    ensures Flatten(EventBlocks([e], uid, stamp)) == EventLines(uid(0), e, stamp)
  {
    var block := EventLines(uid(0), e, stamp);
    var blocks := EventBlocks([e], uid, stamp);
    assert blocks == [] + [block] by {
      assert |blocks| == 1 && blocks[0] == block;
    }
    FlattenAppend([], block);
  }

  /** A table of one accepted data row gives exactly one event, with the
      first identifier, and no diagnostic. */
  lemma OneAcceptedRow(header: Row, row: Row, cols: Columns, e: Entry, uid: nat -> string, stamp: string, currentYear: nat)
    requires FindColumns(header) == Success(cols)
    requires ProcessRow(row, cols, currentYear) == Accepted(e)
    ensures BuildCalendar([header, row], uid, stamp, currentYear)
      == Success(Calendar(Preamble + EventLines(uid(0), e, stamp) + [Closing], 1, []))
  {
    assert [header, row][1..] == [row];
    OneRowEntries(row, cols, e, currentYear);
    SingleBlock(e, uid, stamp);
  }

  /** The worked example of a contact born on 1990-05-15: the birthday
      resolves to that date in any year, and the event's DTSTART and DTEND
      lines carry 19900515. */
  lemma SampleShape()
    ensures IsFullDateShape("1990-05-15")
  {
    var b := "1990-05-15";
    assert b == "1990" + ("-" + ("05" + ("-" + "15")));
    CountCharConcat("-", "15", '-');
    CountCharConcat("05", "-" + "15", '-');
    CountCharConcat("-", "05" + ("-" + "15"), '-');
    CountCharConcat("1990", "-" + ("05" + ("-" + "15")), '-');
  }

  lemma SampleBirthday(currentYear: nat)
    ensures ResolveBirthday("1990-05-15", currentYear) == Resolved(Date(1990, 5, 15))
  {
    SampleShape();
    assert FormatIsoDate(Date(1990, 5, 15)) == "1990-05-15";
    ParseFormatIsoDate(Date(1990, 5, 15));
  }

  lemma SampleEventDates(uid: string, name: string, stamp: string)
    ensures var lines := EventLines(uid, Entry(name, Date(1990, 5, 15)), stamp);
      lines[2] == "DTSTART;VALUE=DATE:19900515" && lines[3] == "DTEND;VALUE=DATE:19900515"
  {
    assert FormatBasicDate(Date(1990, 5, 15)) == "19900515";
  }
}
