/**
 * The CSV sink: initialize_csv writes the ten-column header only when the
 * file does not exist yet, and save_to_csv appends one ten-field row per
 * record. The file is an existence flag and its list of rows; every open
 * is in append mode, so rows already in the file are never touched.
 */
module CsvSink {
  import opened Wrappers
  import opened Taxonomy

  /**
   * One field handed to csv.writer: a string, the elapsed seconds (whose
   * two-decimal rendering is not modelled), or an integer counter.
   */
  datatype Cell = Text(text: string) | Seconds(seconds: real) | Int(n: nat)

  type Row = seq<Cell>

  /** What one record holds: timestamp, elapsed time since start and the frame's counts. */
  datatype Summary = Summary(timestamp: string, elapsed: real, counts: Counts)

  /** The header column of each category, in CategoryOrder. */
  function ColumnName(c: Category): string {
    match c
    case Bus => "Buses"
    case Car => "Cars"
    case Jeepney => "Jeepneys"
    case Motorcycle => "Motorcycles"
    case PickupTruck => "Pickup_Trucks"
    case Truck => "Trucks"
    case Van => "Vans"
  }

  const Header: Row := [Text("Timestamp"), Text("Elapsed_Time_Seconds"), Text("Vehicle_Count"),
                        Text("Buses"), Text("Cars"), Text("Jeepneys"), Text("Motorcycles"),
                        Text("Pickup_Trucks"), Text("Trucks"), Text("Vans")]

  /** The column of a category: the three fixed columns come first. */
  function Column(c: Category): (k: nat)
    ensures 3 <= k < |Header|
  {
    3 + Ordinal(c)
  }

  /** The row save_to_csv writes for one record. */
  function EncodeRow(s: Summary): (r: Row)
    ensures |r| == |Header|
  {
    var k := s.counts;
    [Text(s.timestamp), Seconds(s.elapsed), Int(k.total),
     Int(k.bus), Int(k.car), Int(k.jeepney), Int(k.motorcycle),
     Int(k.pickupTruck), Int(k.truck), Int(k.van)]
  }

  /** Reads a data row back, column by column in the header's order; None for any other row. */
  function DecodeRow(r: Row): Option<Summary> {
    if |r| == 10 && r[0].Text? && r[1].Seconds? &&
       r[2].Int? && r[3].Int? && r[4].Int? && r[5].Int? && r[6].Int? && r[7].Int? && r[8].Int? && r[9].Int?
    then Some(Summary(r[0].text, r[1].seconds,
                      Counts(r[2].n, r[3].n, r[4].n, r[5].n, r[6].n, r[7].n, r[8].n, r[9].n)))
    else None
  }

  /** A written row reads back as the record it was written from. */
  lemma {:induction false} DecodeEncode(s: Summary)
    ensures DecodeRow(EncodeRow(s)) == Some(s)
  {
  }

  /** The header never reads as a data row. */
  lemma {:induction false} HeaderIsNotData()
    ensures DecodeRow(Header) == None
  {
  }

  /**
   * Rows and header line up: under each category's header column the row
   * holds that category's count, and under Vehicle_Count the total.
   */
  lemma {:induction false} ColumnsMatchHeader(s: Summary, c: Category)
    ensures Header[Column(c)] == Text(ColumnName(c))
    ensures EncodeRow(s)[Column(c)] == Int(s.counts.Get(c))
    ensures Header[2] == Text("Vehicle_Count") && EncodeRow(s)[2] == Int(s.counts.total)
  {
    match c
    case Bus =>
    case Car =>
    case Jeepney =>
    case Motorcycle =>
    case PickupTruck =>
    case Truck =>
    case Van =>
  }

  /** The file on disk: whether it exists, and its rows in order. */
  datatype FileState = FileState(present: bool, rows: seq<Row>)
  {
    /** A file that does not exist has no rows. */
    predicate Valid() {
      !present ==> rows == []
    }
  }

  /** initialize_csv: open in append mode (creating the file), and write the header if the file was new. */
  function AfterInitialize(f: FileState): (g: FileState)
    requires f.Valid()
    ensures g.Valid() && g.present
    ensures f.present ==> g.rows == f.rows
    ensures !f.present ==> g.rows == [Header]
  {
    FileState(true, if f.present then f.rows else f.rows + [Header])
  }

  /** save_to_csv: open in append mode (creating the file) and write one row at the end. */
  function AfterAppend(f: FileState, s: Summary): (g: FileState)
    ensures g.Valid() && g.present
    ensures |g.rows| == |f.rows| + 1
    ensures g.rows[..|f.rows|] == f.rows && g.rows[|f.rows|] == EncodeRow(s)
  {
    FileState(true, f.rows + [EncodeRow(s)])
  }

  /** Initialising an initialised file changes nothing. */
  lemma {:induction false} InitializeIdempotent(f: FileState)
    requires f.Valid()
    ensures AfterInitialize(AfterInitialize(f)) == AfterInitialize(f)
  {
  }

  /** The number of header rows in a file. */
  function HeaderCount(rows: seq<Row>): nat {
    if rows == [] then 0
    else HeaderCount(rows[..|rows| - 1]) + (if rows[|rows| - 1] == Header then 1 else 0)
  }

  /** Appending a data row never adds a header row. */
  lemma {:induction false} AppendKeepsHeaderCount(f: FileState, s: Summary)
    ensures HeaderCount(AfterAppend(f, s).rows) == HeaderCount(f.rows)
  {
    var rows := AfterAppend(f, s).rows;
    assert rows[..|rows| - 1] == f.rows;
    assert EncodeRow(s)[1] != Header[1];
  }

  /**
   * Header once: on a file the script created, two initialisations and then
   * any appends leave exactly one header, in the first row.
   */
  lemma {:induction false} HeaderOnce(records: seq<Summary>)
    ensures var f := AppendAll(AfterInitialize(AfterInitialize(FileState(false, []))), records);
      HeaderCount(f.rows) == 1 && f.rows[0] == Header
  {
    if records != [] {
      var init := AfterInitialize(AfterInitialize(FileState(false, [])));
      var prev := records[..|records| - 1];
      HeaderOnce(prev);
      AppendKeepsHeaderCount(AppendAll(init, prev), records[|records| - 1]);
    }
  }

  /** The file after appending the given records in order. */
  function AppendAll(f: FileState, records: seq<Summary>): (g: FileState)
    ensures |g.rows| == |f.rows| + |records|
    ensures g.rows[..|f.rows|] == f.rows
    ensures forall j :: 0 <= j < |records| ==> g.rows[|f.rows| + j] == EncodeRow(records[j])
    ensures f.Valid() ==> g.Valid()
  {
    if records == [] then f
    else AfterAppend(AppendAll(f, records[..|records| - 1]), records[|records| - 1])
  }

  /** A file whose only header is its first row keeps it so under any appends. */
  lemma {:induction false} HeaderOnceFrom(f: FileState, records: seq<Summary>)
    requires |f.rows| > 0 && f.rows[0] == Header && HeaderCount(f.rows) == 1
    ensures var g := AppendAll(f, records); HeaderCount(g.rows) == 1 && g.rows[0] == Header
  {
    if records != [] {
      var prev := records[..|records| - 1];
      HeaderOnceFrom(f, prev);
      AppendKeepsHeaderCount(AppendAll(f, prev), records[|records| - 1]);
    }
  }

  /** The file after a series of runs, each one initialize_csv followed by its own appends. */
  function Sessions(f: FileState, runs: seq<seq<Summary>>): (g: FileState)
    requires f.Valid()
    ensures g.Valid()
    ensures runs != [] ==> g.present
  {
    if runs == [] then f
    else AppendAll(AfterInitialize(Sessions(f, runs[..|runs| - 1])), runs[|runs| - 1])
  }

  /**
   * Header once across restarts: starting from no file, any number of runs,
   * each initialising and then appending, leave exactly one header, in the first row.
   */
  lemma {:induction false} HeaderOnceAcrossRestarts(runs: seq<seq<Summary>>)
    requires runs != []
    ensures var g := Sessions(FileState(false, []), runs); HeaderCount(g.rows) == 1 && g.rows[0] == Header
  {
    var prev := Sessions(FileState(false, []), runs[..|runs| - 1]);
    if |runs| == 1 {
      assert prev == FileState(false, []);
      assert [Header][..0] == [];
      assert HeaderCount([Header]) == 1;
    } else {
      HeaderOnceAcrossRestarts(runs[..|runs| - 1]);
      assert AfterInitialize(prev) == prev;
    }
    HeaderOnceFrom(AfterInitialize(prev), runs[|runs| - 1]);
  }

  /** Appending one more record is one more save_to_csv. */
  lemma {:induction false} AppendAllSnoc(f: FileState, records: seq<Summary>, s: Summary)
    ensures AppendAll(f, records + [s]) == AfterAppend(AppendAll(f, records), s)
  {
    assert (records + [s])[..|records|] == records;
  }

  /** The CSV file the script writes to, updated in place by each call. */
  class CsvFile {
    var present: bool
    var rows: seq<Row>

    ghost predicate Valid()
      reads this
    {
      State().Valid()
    }

    function State(): FileState
      reads this
    {
      FileState(present, rows)
    }

    /** The file as found on disk before the script starts. */
    constructor (present: bool, rows: seq<Row>)
      requires present || rows == []
      ensures Valid() && State() == FileState(present, rows)
    {
      this.present := present;
      this.rows := rows;
    }

    /** initialize_csv(csv_file) */
    method InitializeCsv()
      requires Valid()
      modifies this
      ensures Valid()
      ensures State() == AfterInitialize(old(State()))
    {
      var fileExists := present;
      present := true;
      if !fileExists {
        rows := rows + [Header];
      }
    }

    /** save_to_csv(csv_file, timestamp, elapsed_time, counts) */
    method SaveToCsv(timestamp: string, elapsedTime: real, counts: Counts)
      modifies this
      ensures Valid()
      ensures State() == AfterAppend(old(State()), Summary(timestamp, elapsedTime, counts))
    {
      present := true;
      rows := rows + [EncodeRow(Summary(timestamp, elapsedTime, counts))];
    }
  }
}
