/** Tables as the CSV reader delivers them: a header row followed by data
    rows, every cell a string. Shared by the contact filter and the calendar
    builder. */
module Table {
  import opened Wrappers
  import opened Text

  type Row = seq<string>

  /** The run-level failures: `next(reader)` on a file with no rows raises
      `StopIteration`, and `header.index(name)` raises `ValueError`. */
  datatype Error = EmptyInput | MissingColumn(name: string)

  const BirthdayColumn := "Birthday"

  /** `header.index(name)`: the first position holding `name`. */
  function IndexOf(header: Row, name: string): (r: Option<nat>)
    ensures r.Some? ==> r.value < |header| && header[r.value] == name && name !in header[..r.value]
    ensures r.None? <==> name !in header
  {
    if header == [] then None
    else if header[0] == name then Some(0)
    else
      match IndexOf(header[1..], name)
      case Some(i) =>
        assert header[..i + 1] == [header[0]] + header[1..][..i];
        Some(i + 1)
      case None => None
  }

  /** `IndexOf` finds the first occurrence and no other position. */
  lemma IndexOfFirst(header: Row, name: string, i: nat)
    requires i < |header| && header[i] == name && name !in header[..i]
    ensures IndexOf(header, name) == Some(i)
  {
  }

  /** The cell at `i`, or `""` when the row is too short to have one. */
  function Cell(row: Row, i: nat): string {
    if i < |row| then row[i] else ""
  }

  /** The row gate both scripts apply: the row reaches the birthday column
      and that cell is not blank once stripped. */
  predicate HasBirthday(row: Row, birthday: nat) {
    birthday < |row| && Strip(row[birthday]) != ""
  }

  /** The gate in terms of the raw cell: a missing cell or one made only of
      whitespace (spaces, tabs, newlines, ...) fails it. */
  lemma HasBirthdayIff(row: Row, birthday: nat)
    ensures HasBirthday(row, birthday) <==> !AllWhitespace(Cell(row, birthday))
  {
  }
}
