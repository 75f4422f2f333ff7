/** The two scripts run one after the other: filtering first changes nothing
    about the calendar that is built. */
module Pipeline {
  import opened Wrappers
  import opened Text
  import opened Gregorian
  import opened Table
  import opened BirthdayRules
  import opened BirthdayCalendar
  import opened ContactFilter

  /** The rows the filter drops are exactly the rows the builder's gate
      passes over, so dropping them leaves the events and the diagnostics as
      they were. */
  lemma {:induction false} KeptRowsBuildTheSame(rows: seq<Row>, cols: Columns, currentYear: nat)
    ensures Entries(KeepRows(rows, cols.birthday), cols, currentYear) == Entries(rows, cols, currentYear)
    ensures Diagnostics(KeepRows(rows, cols.birthday), cols, currentYear) == Diagnostics(rows, cols, currentYear)
  {
    if rows != [] {
      var i := |rows| - 1;
      var prefix := rows[..i];
      var kept := KeepRows(prefix, cols.birthday);
      KeptRowsBuildTheSame(prefix, cols, currentYear);
      KeepStep(rows, cols.birthday, i);
      RowStep(rows, cols, currentYear, i);
      assert rows[..i + 1] == rows;
      if HasBirthday(rows[i], cols.birthday) {
        assert KeepRows(rows, cols.birthday) == kept + [rows[i]];
        AppendRow(kept, rows[i], cols, currentYear);
        assert Entries(KeepRows(rows, cols.birthday), cols, currentYear) == Entries(rows, cols, currentYear);
      } else {
        assert KeepRows(rows, cols.birthday) == kept;
        assert ProcessRow(rows[i], cols, currentYear).Ignored?;
        assert Entries(rows, cols, currentYear) == Entries(prefix, cols, currentYear);
        assert Entries(KeepRows(rows, cols.birthday), cols, currentYear) == Entries(rows, cols, currentYear);
      }
    }
  }

  /** Appending one row to a table appends its outcome. */
  lemma AppendRow(rows: seq<Row>, row: Row, cols: Columns, currentYear: nat)
    ensures var o := ProcessRow(row, cols, currentYear);
      && Entries(rows + [row], cols, currentYear)
           == Entries(rows, cols, currentYear) + (if o.Accepted? then [o.entry] else [])
      && Diagnostics(rows + [row], cols, currentYear)
           == Diagnostics(rows, cols, currentYear) + (if o.Diagnosed? then [o.diagnostic] else [])
  {
    var more := rows + [row];
    RowStep(more, cols, currentYear, |rows|);
    assert more[..|rows|] == rows && more[..|rows| + 1] == more;
  }

  /** Building from the filtered table gives the same calendar, event for
      event and diagnostic for diagnostic, as building from the original
      table. */
  lemma FilterThenBuild(table: seq<Row>, uid: nat -> string, stamp: string, currentYear: nat)
    requires FilterContacts(table).Success?
    ensures BuildCalendar(FilterContacts(table).value.table, uid, stamp, currentYear)
      == BuildCalendar(table, uid, stamp, currentYear)
  {
    var f := FilterContacts(table).value;
    var header := table[0];
    var birthday := IndexOf(header, BirthdayColumn).value;
    assert f.table == [header] + KeepRows(table[1..], birthday);
    assert f.table[0] == header && f.table[1..] == KeepRows(table[1..], birthday);
    var found := FindColumns(header);
    if found.Success? {
      var cols := found.value;
      IndexOfFirst(header, BirthdayColumn, cols.birthday);
      KeptRowsBuildTheSame(table[1..], cols, currentYear);
    }
  }

  /** After filtering, the number of events is at most the number of rows
      kept. */
  lemma FilteredEventCount(table: seq<Row>, uid: nat -> string, stamp: string, currentYear: nat)
    requires FilterContacts(table).Success?
    requires BuildCalendar(table, uid, stamp, currentYear).Success?
    ensures BuildCalendar(table, uid, stamp, currentYear).value.count <= FilterContacts(table).value.kept
  {
    var f := FilterContacts(table).value;
    FilterThenBuild(table, uid, stamp, currentYear);
    assert BuildCalendar(f.table, uid, stamp, currentYear).value.count <= |f.table| - 1;
  }
}
