/** Delimited files as the scripts see them through the `csv` module: a file
    is absent or a sequence of rows of fields, the header row first. Quoting,
    escaping and text encoding are below this level. */
module Csv {
  import opened Basics

  type Row = seq<string>

  /** None: the file does not exist (opening it raises FileNotFoundError). */
  type CsvFile = Option<seq<Row>>

  /** The last column carrying `name`. `DictReader` builds each record with
      `dict(zip(header, row))`, so a later duplicate column wins. */
  function LastIndexOf(header: Row, name: string): (r: Option<nat>)
    ensures r.None? <==> name !in header
    ensures r.Some? ==> r.value < |header| && header[r.value] == name
    ensures r.Some? ==> forall j :: r.value < j < |header| ==> header[j] != name
  {
    if |header| == 0 then None
    else if header[|header| - 1] == name then Some(|header| - 1)
    else LastIndexOf(header[..|header| - 1], name)
  }

  /** `record.get(name)` for the record `DictReader` makes of `row`: the
      field under the last `name` column, or None when the header has no
      such column or the row is too short to reach it (short rows are padded
      with None). Blank rows, which `DictReader` skips, have no fields and so
      yield None here too. */
  function Get(header: Row, row: Row, name: string): Option<string> {
    match LastIndexOf(header, name)
    case None => None
    case Some(j) => if j < |row| then Some(row[j]) else None
  }

  /** The rows a file holds once opened for appending: a new file is started
      with the header. */
  function Lines(file: CsvFile, header: Row): seq<Row> {
    match file
    case None => [header]
    case Some(rows) => rows
  }

  /** The shared write path of both `save_csv` functions: probe whether the
      file exists, open it for appending, write the header only if it did not
      exist, then write the row. */
  function Append(file: CsvFile, header: Row, row: Row): (r: CsvFile)
    ensures r.Some? && |r.value| > 0 && r.value[|r.value| - 1] == row
    ensures file.None? ==> r.value == [header, row]
    ensures file.Some? ==> |r.value| == |file.value| + 1 && r.value[..|file.value|] == file.value
  {
    Some(Lines(file, header) + [row])
  }

  /** A run of appends, one per row, in order. */
  function AppendAll(file: CsvFile, header: Row, rows: seq<Row>): CsvFile
    decreases |rows|
  {
    if |rows| == 0 then file else AppendAll(Append(file, header, rows[0]), header, rows[1..])
  }

  /** A run of appends leaves the file as it was when there is nothing to
      write, and otherwise adds exactly the given rows after the existing
      ones (after a fresh header if the file was absent). */
  lemma {:induction false} AppendAllShape(file: CsvFile, header: Row, rows: seq<Row>)
    ensures |rows| == 0 ==> AppendAll(file, header, rows) == file
    ensures |rows| > 0 ==> AppendAll(file, header, rows) == Some(Lines(file, header) + rows)
    decreases |rows|
  {
    if |rows| > 0 {
      var f1 := Append(file, header, rows[0]);
      AppendAllShape(f1, header, rows[1..]);
      if |rows| > 1 {
        assert Lines(f1, header) + rows[1..] == Lines(file, header) + rows;
      } else {
        assert rows == [rows[0]];
      }
    }
  }
}
