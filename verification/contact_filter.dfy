/** `filter_contacts_with_birthdays`: keep the header and every data row
    with a non-blank `Birthday` cell, and report how many rows were kept and
    how many removed. The CSV reading and writing around it are left out:
    the table comes in and goes out as rows. */
module ContactFilter {
  import opened Wrappers
  import opened Text
  import opened Table
  import opened Sequences

  /** The filtered table (header first) and the two counts returned. */
  datatype Filtered = Filtered(table: seq<Row>, kept: nat, removed: nat)

  /** Every row passes the birthday gate. */
  predicate AllHaveBirthdays(rows: seq<Row>, birthday: nat) {
    forall row :: row in rows ==> HasBirthday(row, birthday)
  }

  lemma AllHaveBirthdaysPrefix(rows: seq<Row>, birthday: nat)
    requires rows != []
    ensures AllHaveBirthdays(rows, birthday) <==>
      AllHaveBirthdays(rows[..|rows| - 1], birthday) && HasBirthday(rows[|rows| - 1], birthday)
  {
    var prefix := rows[..|rows| - 1];
    var last := rows[|rows| - 1];
    assert rows == prefix + [last];
    assert forall row :: row in rows <==> row in prefix || row == last;
  }

  /** The data rows that pass the birthday gate, in input order. */
  function KeepRows(rows: seq<Row>, birthday: nat): (kept: seq<Row>)
    ensures |kept| <= |rows|
    ensures AllHaveBirthdays(kept, birthday)
  {
    if rows == [] then []
    else
      var last := rows[|rows| - 1];
      var prefix := rows[..|rows| - 1];
      var kept := KeepRows(prefix, birthday) + (if HasBirthday(last, birthday) then [last] else []);
      assert AllHaveBirthdays(kept, birthday) by {
        if HasBirthday(last, birthday) {
          AllHaveBirthdaysPrefix(kept, birthday);
          assert kept[..|kept| - 1] == KeepRows(prefix, birthday);
        }
      }
      kept
  }

  /** One more row: it is appended when it passes the gate. */
  lemma KeepStep(rows: seq<Row>, birthday: nat, i: nat)
    requires i < |rows|
    ensures KeepRows(rows[..i + 1], birthday)
      == KeepRows(rows[..i], birthday) + (if HasBirthday(rows[i], birthday) then [rows[i]] else [])
  {
    assert rows[..i + 1][..i] == rows[..i] && rows[..i + 1][i] == rows[i];
  }

  /** A row is kept exactly when it is one of the input rows and passes the
      gate. */
  lemma {:induction false} KeepRowsMembership(rows: seq<Row>, birthday: nat, row: Row)
    ensures row in KeepRows(rows, birthday) <==> row in rows && HasBirthday(row, birthday)
  {
    if rows != [] {
      var prefix := rows[..|rows| - 1];
      var last := rows[|rows| - 1];
      KeepRowsMembership(prefix, birthday, row);
      assert rows == prefix + [last];
      assert KeepRows(rows, birthday) == KeepRows(prefix, birthday) + (if HasBirthday(last, birthday) then [last] else []);
      assert row in rows <==> row in prefix || row == last;
    }
  }

  /** The kept rows are the input rows, unmodified and in their order, with
      some deleted. */
  lemma {:induction false} KeepRowsIsSubsequence(rows: seq<Row>, birthday: nat)
    ensures IsSubsequence(KeepRows(rows, birthday), rows)
  {
    if rows != [] {
      var prefix := rows[..|rows| - 1];
      var kept := KeepRows(rows, birthday);
      KeepRowsIsSubsequence(prefix, birthday);
      if HasBirthday(rows[|rows| - 1], birthday) {
        assert kept[..|kept| - 1] == KeepRows(prefix, birthday);
      } else {
        assert kept == KeepRows(prefix, birthday);
      }
    }
  }

  /** When every row already passes the gate, the rows come back unchanged. */
  lemma {:induction false} KeepRowsAllPass(rows: seq<Row>, birthday: nat)
    requires AllHaveBirthdays(rows, birthday)
    ensures KeepRows(rows, birthday) == rows
  {
    if rows != [] {
      var prefix := rows[..|rows| - 1];
      var last := rows[|rows| - 1];
      assert rows == prefix + [last];
      AllHaveBirthdaysPrefix(rows, birthday);
      KeepRowsAllPass(prefix, birthday);
      assert KeepRows(rows, birthday) == KeepRows(prefix, birthday) + [last];
    }
  }

  /** The number of rows the gate rejects. */
  function CountRemoved(rows: seq<Row>, birthday: nat): (n: nat)
    ensures n <= |rows|
  {
    if rows == [] then 0
    else CountRemoved(rows[..|rows| - 1], birthday) + (if HasBirthday(rows[|rows| - 1], birthday) then 0 else 1)
  }

  /** Nothing is removed exactly when every row passes the gate. */
  lemma {:induction false} NoneRemovedIff(rows: seq<Row>, birthday: nat)
    ensures CountRemoved(rows, birthday) == 0 <==> AllHaveBirthdays(rows, birthday)
  {
    if rows != [] {
      AllHaveBirthdaysPrefix(rows, birthday);
      NoneRemovedIff(rows[..|rows| - 1], birthday);
    }
  }

  /** The kept and removed rows together are all the data rows. */
  lemma {:induction false} KeptPlusRemoved(rows: seq<Row>, birthday: nat)
    ensures |KeepRows(rows, birthday)| + CountRemoved(rows, birthday) == |rows|
  {
    if rows != [] {
      KeptPlusRemoved(rows[..|rows| - 1], birthday);
    }
  }

  /** The filter as a whole. `table[0]` is the header; the rest are data rows.
      A header without `Birthday` fails before any row is looked at. */
  function FilterContacts(table: seq<Row>): (r: Result<Filtered, Error>)
    ensures table == [] ==> r == Failure(EmptyInput)
    ensures table != [] && BirthdayColumn !in table[0] ==> r == Failure(MissingColumn(BirthdayColumn))
    ensures r.Success? <==> table != [] && BirthdayColumn in table[0]
    ensures r.Success? ==> |r.value.table| >= 1 && r.value.table[0] == table[0]
    ensures r.Success? ==> r.value.kept == |r.value.table| - 1
    ensures r.Success? ==> r.value.kept + r.value.removed == |table| - 1
  {
    if table == [] then Failure(EmptyInput)
    else
      match IndexOf(table[0], BirthdayColumn)
      case None => Failure(MissingColumn(BirthdayColumn))
      case Some(birthday) =>
        var kept := KeepRows(table[1..], birthday);
        Success(Filtered([table[0]] + kept, |kept|, |table| - 1 - |kept|))
  }

  /** What the filter keeps: after the unchanged header come exactly the
      input rows with a non-blank birthday, in input order, and `removed`
      counts the others. */
  lemma FilterContactsKeeps(table: seq<Row>)
    requires FilterContacts(table).Success?
    ensures var f := FilterContacts(table).value;
      var birthday := IndexOf(table[0], BirthdayColumn).value;
      && f.table[1..] == KeepRows(table[1..], birthday)
      && f.removed == CountRemoved(table[1..], birthday)
      && (forall row :: row in f.table[1..] <==> row in table[1..] && HasBirthday(row, birthday))
      && IsSubsequence(f.table[1..], table[1..])
  {
    var birthday := IndexOf(table[0], BirthdayColumn).value;
    KeptPlusRemoved(table[1..], birthday);
    KeepRowsIsSubsequence(table[1..], birthday);
    forall row ensures row in KeepRows(table[1..], birthday) <==> row in table[1..] && HasBirthday(row, birthday) {
      KeepRowsMembership(table[1..], birthday, row);
    }
    assert FilterContacts(table).value.table[1..] == KeepRows(table[1..], birthday);
  }

  /** A header-only table is returned as it is, with nothing kept or removed. */
  lemma FilterHeaderOnly(header: Row)
    requires BirthdayColumn in header
    ensures FilterContacts([header]) == Success(Filtered([header], 0, 0))
  {
    var birthday := IndexOf(header, BirthdayColumn).value;
    assert [header][1..] == [];
    assert KeepRows([], birthday) == [];
    assert [header] + [] == [header];
  }

  /** Filtering an already filtered table removes nothing and changes
      nothing. */
  lemma {:induction false} FilterIdempotent(table: seq<Row>)
    requires FilterContacts(table).Success?
    ensures var f := FilterContacts(table).value;
      FilterContacts(f.table) == Success(Filtered(f.table, f.kept, 0))
  {
    var f := FilterContacts(table).value;
    var birthday := IndexOf(table[0], BirthdayColumn).value;
    var kept := KeepRows(table[1..], birthday);
    assert f.table == [table[0]] + kept;
    assert f.table[1..] == kept;
    KeepRowsAllPass(kept, birthday);
  }

  /** The loop of the script: one pass over the data rows that collects the
      ones passing the gate, in order. */
  method CollectKept(rows: seq<Row>, birthday: nat) returns (kept: seq<Row>)
    ensures kept == KeepRows(rows, birthday)
  {
    kept := [];
    var total := 0;
    while total < |rows|
      invariant 0 <= total <= |rows|
      invariant kept == KeepRows(rows[..total], birthday)
    {
      KeepStep(rows, birthday, total);
      kept := kept + (if HasBirthday(rows[total], birthday) then [rows[total]] else []);
      total := total + 1;
    }
    assert rows[..total] == rows;
  }

  /** The filter as the script runs it: the header is written first, then
      the rows the pass keeps; the counts come from that pass. */
  method FilterContactsWithBirthdays(table: seq<Row>) returns (r: Result<Filtered, Error>)
    ensures r == FilterContacts(table)
  {
    if table == [] {
      return Failure(EmptyInput);
    }
    var header := table[0];
    var found := IndexOf(header, BirthdayColumn);
    if found.None? {
      return Failure(MissingColumn(BirthdayColumn));
    }
    var rows := table[1..];
    var kept := CollectKept(rows, found.value);
    var output := [header] + kept;
    r := Success(Filtered(output, |kept|, |rows| - |kept|));
  }
}
