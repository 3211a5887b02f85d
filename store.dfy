/** The data file as an abstract value (the csv helpers of utils.py): an
    optional header line followed by data rows. Creating a file writes the
    header and a batch of rows, replacing what was there; appending adds a
    batch of rows after the existing ones and never writes a header. */
module Store {
  import opened Wrappers
  import opened Triangles

  datatype CsvFile = CsvFile(header: Option<seq<string>>, rows: seq<Row>)

  /** A row the generator can resume from: eight values, the first a
      positive whole number. */
  predicate WellFormedRow(r: Row) {
    |r| == ColumnCount && r[0] >= 1.0 && r[0].Floor as real == r[0]
  }

  /** Every row is well formed and the triangle numbers strictly increase
      down the file, so no triangle is stored twice. */
  ghost predicate WellFormedFile(f: CsvFile) {
    (forall i :: 0 <= i < |f.rows| ==> WellFormedRow(f.rows[i]))
    && forall i, j :: 0 <= i < j < |f.rows| ==> f.rows[i][0] < f.rows[j][0]
  }

  /** Appending rows that are well formed among themselves and come after
      the last row keeps a well-formed file well formed. */
  lemma AppendKeepsWellFormed(f: CsvFile, batch: seq<Row>)
    requires WellFormedFile(f) && WellFormedFile(CsvFile(f.header, batch))
    requires f.rows != [] && batch != [] ==> f.rows[|f.rows| - 1][0] < batch[0][0]
    ensures WellFormedFile(f.(rows := f.rows + batch))
  {
    var rows := f.rows + batch;
    forall i, j | 0 <= i < j < |rows| ensures rows[i][0] < rows[j][0] {
      if i < |f.rows| <= j {
        var n := |f.rows|;
        assert f.rows[i][0] <= f.rows[n - 1][0] by {
          if i < n - 1 {
            assert f.rows[i][0] < f.rows[n - 1][0];
          }
        }
        assert batch[0][0] <= batch[j - n][0] by {
          if j > n {
            assert batch[0][0] < batch[j - n][0];
          }
        }
      } else if j < |f.rows| {
        assert rows[i] == f.rows[i] && rows[j] == f.rows[j];
      } else {
        assert rows[i] == batch[i - |f.rows|] && rows[j] == batch[j - |f.rows|];
      }
    }
  }

  /** The file after a write. Creating replaces any file with the header and
      the batch. Appending keeps the header (or the lack of one) and every
      existing row, and adds the batch after them; appending where no file
      exists makes a file without a header. */
  function Written(disk: Option<CsvFile>, headers: seq<string>, batch: seq<Row>, createNewFile: bool)
    : (f: CsvFile)
    ensures createNewFile ==> f.header == Some(headers) && f.rows == batch
    ensures !createNewFile && disk.Some? ==>
              f.header == disk.value.header
              && |f.rows| == |disk.value.rows| + |batch|
              && f.rows[..|disk.value.rows|] == disk.value.rows
              && f.rows[|disk.value.rows|..] == batch
    ensures !createNewFile && disk.None? ==> f.header.None? && f.rows == batch
  {
    if createNewFile then
      CsvFile(Some(headers), batch)
    else
      match disk
      case None => CsvFile(None, batch)
      case Some(existing) => existing.(rows := existing.rows + batch)
  }

  /** The last data row, or None when there is no file or the file holds
      only a header. */
  function LastRow(disk: Option<CsvFile>): (r: Option<Row>)
    ensures r.None? <==> disk.None? || disk.value.rows == []
    ensures r.Some? ==> r.value == disk.value.rows[|disk.value.rows| - 1]
  {
    match disk
    case None => None
    case Some(f) => if f.rows == [] then None else Some(f.rows[|f.rows| - 1])
  }

  /** The file on disk. */
  class DataFile {
    var contents: Option<CsvFile>

    constructor (contents: Option<CsvFile>)
      ensures this.contents == contents
    {
      this.contents := contents;
    }

    /** Reads only the last row of the file. */
    method ReadLastTriangle() returns (last: Option<Row>)
      ensures last == LastRow(contents)
    {
      last := LastRow(contents);
    }

    /** Writes a batch of rows, creating the file or appending to it. */
    method Write(headers: seq<string>, batch: seq<Row>, createNewFile: bool)
      modifies this
      ensures contents == Some(Written(old(contents), headers, batch, createNewFile))
    {
      contents := Some(Written(contents, headers, batch, createNewFile));
    }
  }
}
