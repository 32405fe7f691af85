/**
 * `export_csv`: a list of dictionaries becomes a CSV table whose header is
 * the sorted union of every dictionary's keys and whose records list each
 * dictionary's values under that header, blank where a key is missing. No
 * dictionaries give an empty file.
 *
 * Values are taken as already rendered to text, and the file as its header
 * and records; the quoting and line endings of the CSV writer are not
 * modelled.
 */
module CsvExport {
  import opened Wrappers
  import opened StringOrder

  type Row = map<string, string>

  datatype CsvFile =
    | EmptyFile
    | Table(header: seq<string>, records: seq<seq<string>>)

  /** The number of lines the file holds. */
  function LineCount(file: CsvFile): nat {
    match file
    case EmptyFile => 0
    case Table(_, records) => 1 + |records|
  }

  /** The union of the keys of `rows`. */
  function KeysOf(rows: seq<Row>): set<string> {
    if rows == [] then {} else KeysOf(rows[..|rows| - 1]) + rows[|rows| - 1].Keys
  }

  /** A column exists exactly when some row has that key. */
  lemma {:induction false} KeysOfMembers(rows: seq<Row>)
    ensures forall h :: h in KeysOf(rows) <==> exists i | 0 <= i < |rows| :: h in rows[i]
    decreases |rows|
  {
    if rows != [] {
      var init := rows[..|rows| - 1];
      KeysOfMembers(init);
      forall h | h in KeysOf(rows) ensures exists i | 0 <= i < |rows| :: h in rows[i] {
        if h in KeysOf(init) {
          var i :| 0 <= i < |init| && h in init[i];
          assert rows[i] == init[i];
        }
      }
      forall h, i | 0 <= i < |rows| && h in rows[i] ensures h in KeysOf(rows) {
        if i < |init| {
          assert rows[i] == init[i];
        }
      }
    }
  }

  /** `DictWriter.writerow`: the row's value under each column, `""` (the writer's `restval`) where it has none. */
  function Record(header: seq<string>, row: Row): (record: seq<string>)
    ensures |record| == |header|
  {
    seq(|header|, j requires 0 <= j < |header| => GetOr(row, header[j], ""))
  }

  /** `export_csv` on the rows, returning what it writes to the file. */
  method ExportCsv(rows: seq<Row>) returns (file: CsvFile)
    ensures rows == [] <==> file == EmptyFile
    ensures LineCount(file) == if rows == [] then 0 else 1 + |rows|
    ensures file.Table? ==>
      StrictlyAscending(file.header)
      && (forall h :: h in file.header <==> exists i | 0 <= i < |rows| :: h in rows[i])
      && |file.records| == |rows|
      && forall i | 0 <= i < |rows| :: file.records[i] == Record(file.header, rows[i])
  {
    if rows == [] {
      return EmptyFile;
    }
    var headers: set<string> := {};
    var i := 0;
    while i < |rows|
      invariant 0 <= i <= |rows|
      invariant headers == KeysOf(rows[..i])
    {
      assert rows[..i + 1][..i] == rows[..i];
      headers := headers + rows[i].Keys;
      i := i + 1;
    }
    assert rows[..i] == rows;
    var header := SortedFromSet(headers);
    var records: seq<seq<string>> := [];
    var k := 0;
    while k < |rows|
      invariant 0 <= k <= |rows|
      invariant |records| == k
      invariant forall j | 0 <= j < k :: records[j] == Record(header, rows[j])
    {
      records := records + [Record(header, rows[k])];
      k := k + 1;
    }
    KeysOfMembers(rows);
    file := Table(header, records);
  }

  /** Every value of every row appears in its record, in the column named by its key. */
  lemma NoValueLost(header: seq<string>, row: Row, key: string)
    requires key in row && key in header
    ensures exists j | 0 <= j < |header| :: header[j] == key && Record(header, row)[j] == row[key]
  {
    var j :| 0 <= j < |header| && header[j] == key;
    assert Record(header, row)[j] == row[key];
  }

  /** A column the row has no key for is left blank. */
  lemma MissingKeyBlank(header: seq<string>, row: Row, j: int)
    requires 0 <= j < |header| && header[j] !in row
    ensures Record(header, row)[j] == ""
  {
  }

  /** Two rows, `{name, val}` and `{name, extra}`: the header is `extra, name, val` and the file has three lines. */
  lemma ExampleTwoRows(file: CsvFile)
    requires var rows := [map["name" := "x", "val" := "1"], map["name" := "y", "extra" := "z"]];
      file.Table?
      && StrictlyAscending(file.header)
      && (forall h :: h in file.header <==> exists i | 0 <= i < |rows| :: h in rows[i])
      && |file.records| == |rows|
    ensures file.header == ["extra", "name", "val"]
    ensures LineCount(file) == 3
  {
    var rows := [map["name" := "x", "val" := "1"], map["name" := "y", "extra" := "z"]];
    var expected := ["extra", "name", "val"];
    assert StrLess("extra", "name") && StrLess("name", "val") && StrLess("extra", "val");
    forall h ensures h in file.header <==> h in expected {
      assert h in rows[0] <==> h == "name" || h == "val";
      assert h in rows[1] <==> h == "name" || h == "extra";
    }
    StrictlyAscendingUnique(file.header, expected);
  }
}
