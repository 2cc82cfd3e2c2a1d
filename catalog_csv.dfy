/** The catalog CSV both harvesters append to (master_list.csv, columns
    bgg_id, name, year, type). The file is a sequence of lines: a header, then
    data rows. A cell the scripts hand to the CSV writer as Python `None` is
    written as an empty field, so every cell here is a plain string. */
module CatalogCsv {

  datatype Row = Row(bggId: string, name: string, year: string, kind: string)

  datatype CsvLine = Header | Data(row: Row)

  /** The header is the first line of the file and appears nowhere else. */
  ghost predicate WellFormed(lines: seq<CsvLine>) {
    (lines != [] ==> lines[0] == Header)
    && forall i :: 0 < i < |lines| ==> lines[i].Data?
  }

  /** The lines `writer.writerows(rows)` adds. */
  function DataLines(rows: seq<Row>): (r: seq<CsvLine>)
    ensures |r| == |rows|
    ensures forall i :: 0 <= i < |rows| ==> r[i] == Data(rows[i])
  {
    if rows == [] then [] else [Data(rows[0])] + DataLines(rows[1..])
  }

  lemma DataLinesAppend(a: seq<Row>, b: seq<Row>)
    ensures DataLines(a + b) == DataLines(a) + DataLines(b)
  {
    var l, r := DataLines(a + b), DataLines(a) + DataLines(b);
    assert |l| == |r|;
    forall i | 0 <= i < |l| ensures l[i] == r[i] {
      if i < |a| { assert (a + b)[i] == a[i]; } else { assert (a + b)[i] == b[i - |a|]; }
    }
  }

  /** What the file holds once the scripts have opened it: mode "w" plus a
      header when it did not exist, mode "a" (contents kept) when it did. */
  function Opened(present: bool, lines: seq<CsvLine>): (r: seq<CsvLine>)
    requires !present ==> lines == []
    ensures WellFormed(lines) ==> WellFormed(r)
    ensures WellFormed(lines) && (present ==> lines != []) ==> r != [] && r[0] == Header
    ensures |r| == |lines| + (if present then 0 else 1)
    ensures present ==> r == lines
  {
    if present then lines else [Header]
  }

  /** Opening (header only when absent) and appending rows keeps one header, first. */
  lemma {:induction false} AppendKeepsWellFormed(present: bool, lines: seq<CsvLine>, rows: seq<Row>)
    requires !present ==> lines == []
    requires present ==> lines != []
    requires WellFormed(lines)
    ensures WellFormed(Opened(present, lines) + DataLines(rows))
    ensures (Opened(present, lines) + DataLines(rows))[0] == Header
  {
    var r := Opened(present, lines) + DataLines(rows);
    forall i | 0 < i < |r| ensures r[i].Data? {
      if i >= |Opened(present, lines)| {
        assert r[i] == DataLines(rows)[i - |Opened(present, lines)|];
      }
    }
  }
}
