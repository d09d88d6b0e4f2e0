/** The step of the CSV importer that follows tokenisation: the first row is
    the header, and every later row becomes a map from header names to that
    row's cells. Opening the file and splitting it into rows happen before
    this step; their result, or their error, is its input. */
module CsvImport {
  import opened Wrappers

  type Row = seq<string>

  /** The error the importer reports for a file with no data row. */
  const NoDataRowError := "CSV file must have at least one data row"

  function Min(a: int, b: int): int {
    if a < b then a else b
  }

  /** The names of the first `width` header columns. */
  ghost function Names(header: Row, width: int): set<string>
    requires 0 <= width <= |header|
  {
    set i | 0 <= i < width :: header[i]
  }

  lemma NamesGrow(header: Row, width: int)
    requires 0 <= width < |header|
    ensures Names(header, width + 1) == Names(header, width) + {header[width]}
  {
  }

  /** Column `j` is the last of the first `width` header columns named
      `header[j]`. */
  ghost predicate IsLastOccurrence(header: Row, width: int, j: int) {
    && 0 <= j < width <= |header|
    && forall l :: j < l < width ==> header[l] != header[j]
  }

  /** The map built by visiting the first `n` header columns in order,
      storing each column the row reaches, so that a later column overwrites
      an earlier one of the same name. */
  function ZipColumns(header: Row, row: Row, n: nat): (m: map<string, string>)
    requires n <= |header|
    ensures m.Keys == Names(header, Min(n, |row|))
    ensures forall j {:trigger IsLastOccurrence(header, Min(n, |row|), j)} ::
      IsLastOccurrence(header, Min(n, |row|), j) ==> m[header[j]] == row[j]
  {
    if n == 0 then map[]
    else
      var m := ZipColumns(header, row, n - 1);
      if n - 1 < |row| then
        NamesGrow(header, n - 1);
        assert forall j :: IsLastOccurrence(header, n, j) && j < n - 1 ==> IsLastOccurrence(header, n - 1, j);
        m[header[n - 1] := row[n - 1]]
      else
        assert Min(n, |row|) == Min(n - 1, |row|);
        m
  }

  /** One data row zipped against the header: the keys are the header names
      of the columns both rows have; cells past the header and header
      columns past the row are dropped; for a repeated header name the
      rightmost such column wins. */
  function ZipRow(header: Row, row: Row): (m: map<string, string>)
    ensures m.Keys == Names(header, Min(|header|, |row|))
    ensures forall j {:trigger IsLastOccurrence(header, Min(|header|, |row|), j)} ::
      IsLastOccurrence(header, Min(|header|, |row|), j) ==> m[header[j]] == row[j]
  {
    ZipColumns(header, row, |header|)
  }

  /** With no repeated header name, every column the row reaches keeps its
      own cell under its own name. */
  lemma DistinctHeaderKeepsEveryCell(header: Row, row: Row)
    requires forall i, j :: 0 <= i < j < |header| ==> header[i] != header[j]
    ensures forall i :: 0 <= i < Min(|header|, |row|) ==>
      header[i] in ZipRow(header, row) && ZipRow(header, row)[header[i]] == row[i]
  {
    var width := Min(|header|, |row|);
    forall i | 0 <= i < width
      ensures header[i] in Names(header, width) && IsLastOccurrence(header, width, i)
    {
    }
  }

  /** Reading the CSV data: errors from opening or parsing the file pass
      through; fewer than two rows is an error; otherwise one map per data
      row, in row order. */
  function ReadCsvData(parsed: Result<seq<Row>>): (r: Result<seq<map<string, string>>>)
    ensures parsed.Failure? ==> r == Failure(parsed.error)
    ensures parsed.Success? ==> (r.Success? <==> |parsed.value| >= 2)
    ensures parsed.Success? && |parsed.value| < 2 ==> r == Failure(NoDataRowError)
    ensures r.Success? ==>
      && |r.value| == |parsed.value| - 1
      && forall i :: 0 <= i < |r.value| ==> r.value[i] == ZipRow(parsed.value[0], parsed.value[i + 1])
  {
    match parsed
    case Failure(error) => Failure(error)
    case Success(records) =>
      if |records| < 2 then Failure(NoDataRowError)
      else Success(seq(|records| - 1, i requires 0 <= i < |records| - 1 => ZipRow(records[0], records[i + 1])))
  }
}
