/**
 * What the three statistics scripts share: rows already split by
 * `csv.reader`, the header loop that finds each column by its label, the
 * `next(reader)` after it, field access, `int` on a cell, and reading the
 * remaining rows one by one until the first one that raises.
 */
module Columns {
  import opened Results
  import opened Text

  /** One CSV record, as `csv.reader` yields it. */
  type Row = seq<string>

  /** The exceptions the scripts can raise; none of them is caught. */
  datatype StatsError =
    | LabelMissing(heading: string) // IndexError from `[...][0]` on an empty list
    | NoMoreRows                  // StopIteration from `next(reader)`
    | FieldMissing(index: nat)    // IndexError from `row[i]`
    | NotANumber(text: string)    // ValueError from `int(...)`
    | EmptyData                   // ValueError from `max`/`min` of nothing

  /** `[i for i, x in enumerate(row) if x == label][0]`: the first position of the heading. */
  function IndexOf(row: Row, heading: string): (r: Result<nat, StatsError>)
    ensures r.Success? <==> heading in row
    ensures r.Success? ==> r.value < |row| && row[r.value] == heading && heading !in row[..r.value]
    ensures r.Failure? ==> r.error == LabelMissing(heading)
  {
    if row == [] then Failure(LabelMissing(heading))
    else if row[0] == heading then Success(0)
    else
      var i :- IndexOf(row[1..], heading);
      assert row[1..][..i] == row[1..i + 1];
      Success(i + 1)
  }

  /** The lookups of the header loop, in order; the first missing label raises. */
  function IndicesOf(row: Row, labels: seq<string>): (r: Result<seq<nat>, StatsError>)
    ensures r.Success? <==> forall j :: 0 <= j < |labels| ==> labels[j] in row
    ensures r.Success? ==> |r.value| == |labels|
    ensures r.Success? ==> forall j :: 0 <= j < |labels| ==> IndexOf(row, labels[j]) == Success(r.value[j])
    ensures r.Failure? ==>
      exists j :: (0 <= j < |labels| && labels[j] !in row && r.error == LabelMissing(labels[j])
        && forall k :: 0 <= k < j ==> labels[k] in row)
  {
    if labels == [] then Success([])
    else
      var i :- IndexOf(row, labels[0]);
      var rest :- IndicesOf(row, labels[1..]);
      Success([i] + rest)
  }

  /** The column positions found in the first row and the rows the second loop reads. */
  datatype Table = Table(columns: seq<nat>, data: seq<Row>)

  /**
   * The header loop (which breaks after the first row) and the
   * `next(reader)` after it: no row at all, or no second row, raises
   * StopIteration; a missing label raises first; the data are the rows after
   * the second one, so the first data row is never read.
   */
  function Locate(rows: seq<Row>, labels: seq<string>): (r: Result<Table, StatsError>)
    ensures rows == [] ==> r == Failure(NoMoreRows)
    ensures r.Success? <==> |rows| >= 2 && forall j :: 0 <= j < |labels| ==> labels[j] in rows[0]
    ensures r.Success? ==> r.value.data == rows[2..] && |r.value.columns| == |labels|
    ensures r.Success? ==> forall j :: 0 <= j < |labels| ==>
      (r.value.columns[j] < |rows[0]| && rows[0][r.value.columns[j]] == labels[j] && labels[j] !in rows[0][..r.value.columns[j]])
    ensures |rows| >= 1 && IndicesOf(rows[0], labels).Failure? ==> r == Failure(IndicesOf(rows[0], labels).error)
  {
    if rows == [] then Failure(NoMoreRows)
    else
      var columns :- IndicesOf(rows[0], labels);
      if |rows| < 2 then Failure(NoMoreRows) else Success(Table(columns, rows[2..]))
  }

  /** Whatever the row after the header holds, the scripts see the same table. */
  lemma SecondRowIgnored(rows: seq<Row>, other: Row, labels: seq<string>)
    requires |rows| >= 2
    ensures Locate(rows, labels) == Locate([rows[0], other] + rows[2..], labels)
  {
    var alt := [rows[0], other] + rows[2..];
    assert alt[0] == rows[0] && alt[2..] == rows[2..];
  }

  /** `row[i]` for a position found in the header. */
  function Field(row: Row, index: nat): (r: Result<string, StatsError>)
    ensures r.Success? <==> index < |row|
    ensures r.Success? ==> r.value == row[index]
    ensures r.Failure? ==> r.error == FieldMissing(index)
  {
    if index < |row| then Success(row[index]) else Failure(FieldMissing(index))
  }

  /** `int(cell)` on a cell of decimal digits. */
  function Int(cell: string): (r: Result<nat, StatsError>)
    ensures r.Success? <==> |cell| > 0 && IsDecimal(cell)
    ensures r.Failure? ==> r.error == NotANumber(cell)
  {
    match ParseDecimal(cell)
    case Some(n) => Success(n)
    case None => Failure(NotANumber(cell))
  }

  /** What `str(n)` wrote, `int` reads back. */
  lemma IntOfDecimal(n: nat)
    ensures Int(Decimal(n)) == Success(n)
  {
    DecimalRoundTrip(n);
  }

  /**
   * The second loop's reading of each row, up to the first row that raises;
   * `read` is what the loop body does with one row before it updates anything.
   */
  function ReadRows<T>(read: Row -> Result<T, StatsError>, rows: seq<Row>): Result<seq<T>, StatsError>
    decreases |rows|
  {
    if rows == [] then Success([])
    else
      var init :- ReadRows(read, rows[..|rows| - 1]);
      var x :- read(rows[|rows| - 1]);
      Success(init + [x])
  }

  /**
   * Reading succeeds exactly when every row reads, and then gives one value
   * per row in row order; otherwise the error is that of the first row that
   * fails.
   */
  lemma {:induction false} ReadRowsCharacterized<T>(read: Row -> Result<T, StatsError>, rows: seq<Row>)
    ensures var r := ReadRows(read, rows);
      (r.Success? <==> forall i :: 0 <= i < |rows| ==> read(rows[i]).Success?)
      && (r.Success? ==> |r.value| == |rows| && forall i :: 0 <= i < |rows| ==> r.value[i] == read(rows[i]).value)
      && (r.Failure? ==>
            exists k :: (0 <= k < |rows| && read(rows[k]) == Failure(r.error)
              && forall i :: 0 <= i < k ==> read(rows[i]).Success?))
    decreases |rows|
  {
    if rows != [] {
      var init := rows[..|rows| - 1];
      ReadRowsCharacterized(read, init);
      assert forall i :: 0 <= i < |init| ==> init[i] == rows[i];
    }
  }

  /** One more row: the step the second loop takes. */
  lemma ReadRowsStep<T>(read: Row -> Result<T, StatsError>, rows: seq<Row>, i: nat)
    requires i < |rows|
    ensures ReadRows(read, rows[..i + 1]) ==
      match ReadRows(read, rows[..i])
      case Failure(e) => Failure(e)
      case Success(xs) =>
        match read(rows[i])
        case Failure(e) => Failure(e)
        case Success(x) => Success(xs + [x])
  {
    assert rows[..i + 1][..i] == rows[..i];
  }

  /** Once a row fails, reading more rows reports that same failure. */
  lemma {:induction false} ReadRowsFailurePersists<T>(read: Row -> Result<T, StatsError>, rows: seq<Row>, i: nat)
    requires i <= |rows| && ReadRows(read, rows[..i]).Failure?
    ensures ReadRows(read, rows) == ReadRows(read, rows[..i])
    decreases |rows| - i
  {
    if i < |rows| {
      ReadRowsStep(read, rows, i);
      ReadRowsFailurePersists(read, rows, i + 1);
    } else {
      assert rows[..i] == rows;
    }
  }
}
