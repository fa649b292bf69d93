/**
  The CSV appender of utils/csv_handler.py (`append_weather_data_to_csv`).

  The target file is an optional sequence of records: `None` is "does not
  exist", `Some([])` is "exists with size zero". A call normalises the
  snapshot, writes a header record only when the file is absent or empty,
  then appends exactly one data record, and reports success as a boolean.
 */
module CsvHandler {
  import opened Values
  import opened CsvSchema

  /** One record of the CSV file: the header line or a data line. */
  datatype Record = Header(labels: seq<string>) | Data(cells: seq<Value>)

  /** The target file: `None` when it does not exist. */
  type CsvFile = Option<seq<Record>>

  /** The header line `to_csv` writes. */
  const HeaderRecord: Record := Header(Columns)

  /** The file's records, empty when the file does not exist. */
  function Content(file: CsvFile): seq<Record> {
    if file.Some? then file.value else []
  }

  /** `not (os.path.exists(csv_path) and os.path.getsize(csv_path) > 0)`. */
  predicate NeedsHeader(file: CsvFile) {
    !(file.Some? && |file.value| > 0)
  }

  /** Lines 100-102: the header decision, then `to_csv(mode="a")` of one row.
      The contract determines the file afterwards: the old records, a header
      only when the file was absent or empty, and the row last. */
  function WriteRow(file: CsvFile, cells: seq<Value>): (r: CsvFile)
    ensures r.Some?
    ensures Content(file) <= Content(r)
    ensures |Content(r)| == |Content(file)| + (if NeedsHeader(file) then 2 else 1)
    ensures NeedsHeader(file) ==> Content(r)[0] == HeaderRecord
    ensures Content(r)[|Content(r)| - 1] == Data(cells)
  {
    var writeHeader := NeedsHeader(file);
    Some(Content(file) + (if writeHeader then [HeaderRecord] else []) + [Data(cells)])
  }

  /** Outcome of one call: the file afterwards and the returned boolean. */
  datatype AppendResult = AppendResult(file: CsvFile, ok: bool)

  /** `append_weather_data_to_csv`. `ioFails` is the environment's choice of
      whether `os.path` or `to_csv` raises; a failure leaves the file as it was. */
  function Append(file: CsvFile, weatherData: Snapshot, nowStamp: string, ioFails: bool): (r: AppendResult)
    ensures r.ok <==> FormatWeatherData(weatherData, nowStamp).Some? && !ioFails
    ensures !r.ok ==> r.file == file
    ensures r.ok ==> r.file == WriteRow(file, RowOf(FormatWeatherData(weatherData, nowStamp).value))
  {
    match FormatWeatherData(weatherData, nowStamp)
    case None => AppendResult(file, false)
    case Some(formatted) =>
      var frame := RowOf(formatted);
      if ioFails then AppendResult(file, false)
      else AppendResult(WriteRow(file, frame), true)
  }

  /** The inputs of one call: snapshot, rendered current time, I/O outcome. */
  datatype Call = Call(weatherData: Snapshot, nowStamp: string, ioFails: bool)

  /** The cells a call writes, or `None` when it returns `False`. */
  function Outcome(c: Call): (o: Option<seq<Value>>)
    ensures forall file ::
      (Append(file, c.weatherData, c.nowStamp, c.ioFails)
       == if o.Some? then AppendResult(WriteRow(file, o.value), true) else AppendResult(file, false))
  {
    match FormatWeatherData(c.weatherData, c.nowStamp)
    case Some(formatted) => if c.ioFails then None else Some(RowOf(formatted))
    case None => None
  }

  function Outcomes(calls: seq<Call>): (os: seq<Option<seq<Value>>>)
    ensures |os| == |calls|
    ensures forall j :: 0 <= j < |calls| ==> os[j] == Outcome(calls[j])
  {
    seq(|calls|, j requires 0 <= j < |calls| => Outcome(calls[j]))
  }

  /** The calls made one after another, each on the file the previous one left. */
  function AppendAll(file: CsvFile, calls: seq<Call>): CsvFile
    decreases |calls|
  {
    if |calls| == 0 then file
    else
      var c := calls[0];
      AppendAll(Append(file, c.weatherData, c.nowStamp, c.ioFails).file, calls[1..])
  }

  /** Rows written one after another; `None` entries (failed calls) write nothing. */
  function WriteAll(file: CsvFile, rows: seq<Option<seq<Value>>>): CsvFile
    decreases |rows|
  {
    if |rows| == 0 then file
    else WriteAll(if rows[0].Some? then WriteRow(file, rows[0].value) else file, rows[1..])
  }

  /** The data records of the rows actually written, in order, duplicates kept. */
  function DataRecords(rows: seq<Option<seq<Value>>>): (records: seq<Record>)
    ensures |records| <= |rows|
    ensures forall j :: 0 <= j < |records| ==> records[j].Data?
  {
    if |rows| == 0 then []
    else (if rows[0].Some? then [Data(rows[0].value)] else []) + DataRecords(rows[1..])
  }

  /** Number of header records in a file. */
  function HeaderCount(records: seq<Record>): nat {
    if |records| == 0 then 0
    else (if records[0].Header? then 1 else 0) + HeaderCount(records[1..])
  }

  // ---------------------------------------------------------------------
  // One call
  // ---------------------------------------------------------------------

  /** The row written by a successful append is the normalised snapshot in column order. */
  lemma AppendedRowFollowsSchema(file: CsvFile, weatherData: Snapshot, current: map<string, Value>, nowStamp: string)
    requires "current_data" in weatherData && weatherData["current_data"] == Dict(current)
    ensures var r := Append(file, weatherData, nowStamp, false);
      && r.ok
      && var cells := Content(r.file)[|Content(r.file)| - 1].cells;
      && |cells| == ColumnCount
      && (forall i :: 0 <= i < ColumnCount && Fields[i] in current ==> cells[i] == current[Fields[i]])
      && ("time" !in current ==> cells[0] == Str(nowStamp))
      && (forall i :: 1 <= i < ColumnCount && Fields[i] !in current ==> cells[i] == MeasurementDefault(i))
  {
    var row := FormatCurrent(current, nowStamp);
    FormatCurrentFollowsSchema(current, nowStamp);
    assert FormatWeatherData(weatherData, nowStamp) == Some(row);
    var cells := RowOf(row);
    forall i | 0 <= i < ColumnCount ensures cells[i] == row[Columns[i]] && ColumnFaithful(current, nowStamp, row, i) {
    }
  }

  lemma {:induction false} HeaderCountConcat(a: seq<Record>, b: seq<Record>)
    ensures HeaderCount(a + b) == HeaderCount(a) + HeaderCount(b)
    decreases |a|
  {
    if |a| == 0 {
      assert a + b == b;
    } else {
      assert (a + b)[1..] == a[1..] + b;
      HeaderCountConcat(a[1..], b);
    }
  }

  lemma {:induction false} NoHeadersAmongRows(records: seq<Record>)
    requires forall j :: 0 <= j < |records| ==> records[j].Data?
    ensures HeaderCount(records) == 0
    decreases |records|
  {
    if |records| > 0 {
      NoHeadersAmongRows(records[1..]);
    }
  }

  /** Writing one row adds a header if and only if the file was absent or empty. */
  lemma WriteRowHeaderCount(file: CsvFile, cells: seq<Value>)
    ensures HeaderCount(Content(WriteRow(file, cells)))
         == HeaderCount(Content(file)) + (if NeedsHeader(file) then 1 else 0)
  {
    var hdr := if NeedsHeader(file) then [HeaderRecord] else [];
    var row := Data(cells);
    assert Content(WriteRow(file, cells)) == Content(file) + (hdr + [row]);
    HeaderCountConcat(Content(file), hdr + [row]);
    HeaderCountConcat(hdr, [row]);
    assert HeaderCount([row]) == 0 by { assert [row][1..] == []; }
    if NeedsHeader(file) {
      assert HeaderCount([HeaderRecord]) == 1 by { assert [HeaderRecord][1..] == []; }
    }
  }

  /** A successful call writes a header if and only if the file is absent or has size zero. */
  lemma HeaderWrittenIffAbsentOrEmpty(file: CsvFile, weatherData: Snapshot, nowStamp: string, ioFails: bool)
    requires Append(file, weatherData, nowStamp, ioFails).ok
    ensures var after := Content(Append(file, weatherData, nowStamp, ioFails).file);
      HeaderCount(after) == HeaderCount(Content(file)) + 1 <==> NeedsHeader(file)
    ensures var after := Content(Append(file, weatherData, nowStamp, ioFails).file);
      HeaderCount(after) == HeaderCount(Content(file)) <==> !NeedsHeader(file)
  {
    WriteRowHeaderCount(file, RowOf(FormatWeatherData(weatherData, nowStamp).value));
  }

  // ---------------------------------------------------------------------
  // Repeated calls
  // ---------------------------------------------------------------------

  /** Repeated calls are repeated writes of their outcomes. */
  lemma {:induction false} AppendAllIsWriteAll(file: CsvFile, calls: seq<Call>)
    ensures AppendAll(file, calls) == WriteAll(file, Outcomes(calls))
    decreases |calls|
  {
    if |calls| > 0 {
      var c := calls[0];
      var next := Append(file, c.weatherData, c.nowStamp, c.ioFails).file;
      assert Outcomes(calls)[1..] == Outcomes(calls[1..]);
      AppendAllIsWriteAll(next, calls[1..]);
    }
  }

  /** Writing rows keeps the prior content as a prefix; a header is added once,
      only if the file started absent or empty and some row was written; then
      every written row follows in order. */
  lemma {:induction false} WriteAllContent(file: CsvFile, rows: seq<Option<seq<Value>>>)
    ensures |DataRecords(rows)| == 0 ==> WriteAll(file, rows) == file
    ensures |DataRecords(rows)| > 0 ==>
      WriteAll(file, rows)
      == Some(Content(file) + (if NeedsHeader(file) then [HeaderRecord] else []) + DataRecords(rows))
    decreases |rows|
  {
    if |rows| > 0 {
      var rest := rows[1..];
      if rows[0].Some? {
        var step := WriteRow(file, rows[0].value);
        var row := Data(rows[0].value);
        var hdr := if NeedsHeader(file) then [HeaderRecord] else [];
        WriteAllContent(step, rest);
        assert Content(step) == Content(file) + hdr + [row];
        assert DataRecords(rows) == [row] + DataRecords(rest);
        if |DataRecords(rest)| > 0 {
          assert Content(step) + [] + DataRecords(rest) == Content(file) + hdr + DataRecords(rows);
        } else {
          assert DataRecords(rows) == [row];
        }
      } else {
        WriteAllContent(file, rest);
        assert DataRecords(rows) == DataRecords(rest);
      }
    }
  }

  /** Repeated appends: the prior content stays as a prefix; a header is added
      once, only if the file started absent or empty and some call succeeded;
      then every successful call's row follows, in call order, duplicates
      kept. Failed calls change nothing. */
  lemma AppendAllContent(file: CsvFile, calls: seq<Call>)
    ensures |DataRecords(Outcomes(calls))| == 0 ==> AppendAll(file, calls) == file
    ensures |DataRecords(Outcomes(calls))| > 0 ==>
      AppendAll(file, calls)
      == Some(Content(file) + (if NeedsHeader(file) then [HeaderRecord] else []) + DataRecords(Outcomes(calls)))
  {
    AppendAllIsWriteAll(file, calls);
    WriteAllContent(file, Outcomes(calls));
  }

  /** Making one more call appends on the file the earlier calls left. */
  lemma {:induction false} AppendAllSnoc(file: CsvFile, calls: seq<Call>, c: Call)
    ensures AppendAll(file, calls + [c]) == Append(AppendAll(file, calls), c.weatherData, c.nowStamp, c.ioFails).file
    decreases |calls|
  {
    if |calls| > 0 {
      var first := Append(file, calls[0].weatherData, calls[0].nowStamp, calls[0].ioFails).file;
      assert (calls + [c])[1..] == calls[1..] + [c];
      AppendAllSnoc(first, calls[1..], c);
    } else {
      assert (calls + [c])[1..] == [];
    }
  }

  /** When every row is written, row j becomes data record j. */
  lemma {:induction false} AllWrittenKeepsEveryRow(rows: seq<Option<seq<Value>>>)
    requires forall j :: 0 <= j < |rows| ==> rows[j].Some?
    ensures |DataRecords(rows)| == |rows|
    ensures forall j :: 0 <= j < |rows| ==> DataRecords(rows)[j] == Data(rows[j].value)
    decreases |rows|
  {
    if |rows| > 0 {
      AllWrittenKeepsEveryRow(rows[1..]);
      assert DataRecords(rows) == [Data(rows[0].value)] + DataRecords(rows[1..]);
    }
  }

  /** Writing n rows into an absent or empty file gives one header, then the rows in order. */
  lemma FreshWriteAll(file: CsvFile, rows: seq<Option<seq<Value>>>)
    requires NeedsHeader(file)
    requires |rows| > 0
    requires forall j :: 0 <= j < |rows| ==> rows[j].Some?
    ensures var after := Content(WriteAll(file, rows));
      && |after| == |rows| + 1
      && after[0] == HeaderRecord
      && (forall j :: 0 <= j < |rows| ==> after[j + 1] == Data(rows[j].value))
      && HeaderCount(after) == 1
  {
    AllWrittenKeepsEveryRow(rows);
    WriteAllContent(file, rows);
    assert Content(WriteAll(file, rows)) == [HeaderRecord] + DataRecords(rows);
    HeaderCountConcat([HeaderRecord], DataRecords(rows));
    NoHeadersAmongRows(DataRecords(rows));
    assert HeaderCount([HeaderRecord]) == 1 by { assert [HeaderRecord][1..] == []; }
  }

  /** Starting from an absent or empty file, n successful appends leave exactly
      one header followed by the n data rows in call order, duplicates kept. */
  lemma FreshFileGetsOneHeaderThenRows(file: CsvFile, calls: seq<Call>)
    requires NeedsHeader(file)
    requires |calls| > 0
    requires forall j :: 0 <= j < |calls| ==> Outcome(calls[j]).Some?
    ensures var after := Content(AppendAll(file, calls));
      && |after| == |calls| + 1
      && after[0] == HeaderRecord
      && (forall j :: 0 <= j < |calls| ==> after[j + 1] == Data(Outcome(calls[j]).value))
      && HeaderCount(after) == 1
  {
    AppendAllIsWriteAll(file, calls);
    FreshWriteAll(file, Outcomes(calls));
  }

  /** Appending to a non-empty file never adds a header, whatever the calls. */
  lemma NonEmptyFileNeverGetsHeader(file: CsvFile, calls: seq<Call>)
    requires !NeedsHeader(file)
    ensures Content(file) <= Content(AppendAll(file, calls))
    ensures HeaderCount(Content(AppendAll(file, calls))) == HeaderCount(Content(file))
  {
    AppendAllContent(file, calls);
    var added := DataRecords(Outcomes(calls));
    if |added| > 0 {
      assert Content(AppendAll(file, calls)) == Content(file) + added;
      HeaderCountConcat(Content(file), added);
      NoHeadersAmongRows(added);
    }
  }
}
