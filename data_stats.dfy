/**
 * The size statistics (data_stats.py): the total of the packet sizes, their
 * number, the sizes in row order, and the smallest and largest size.
 */
module DataStats {
  import opened Results
  import opened Columns
  import FastSniffer

  const SizeLabel := "Packet Size"

  /** `int(row[indice])`. */
  function ReadSize(at: nat, row: Row): (r: Result<nat, StatsError>)
    ensures r.Success? <==> at < |row| && Int(row[at]).Success?
    ensures r.Success? ==> Int(row[at]) == r
  {
    var cell :- Field(row, at);
    Int(cell)
  }

  function SizeReader(columns: seq<nat>): Row -> Result<nat, StatsError>
  {
    if |columns| == 1 then row => ReadSize(columns[0], row)
    else row => Failure(NoMoreRows)
  }

  /** The sizes of the data rows, in row order, or the first exception. */
  function Sizes(rows: seq<Row>): Result<seq<nat>, StatsError>
  {
    var table :- Locate(rows, [SizeLabel]);
    ReadRows(SizeReader(table.columns), table.data)
  }

  function Sum(xs: seq<nat>): nat
  {
    if xs == [] then 0 else xs[0] + Sum(xs[1..])
  }

  lemma {:induction false} SumAppend(xs: seq<nat>, x: nat)
    ensures Sum(xs + [x]) == Sum(xs) + x
    decreases |xs|
  {
    if xs == [] {
      assert [] + [x] == [x];
    } else {
      SumAppend(xs[1..], x);
      assert (xs + [x])[1..] == xs[1..] + [x];
    }
  }

  /** `min(packet_sizes)`: a member that no member is below. */
  function Minimum(xs: seq<nat>): (r: nat)
    requires xs != []
    ensures r in xs && forall i :: 0 <= i < |xs| ==> r <= xs[i]
  {
    if |xs| == 1 then xs[0]
    else
      var rest := Minimum(xs[1..]);
      assert forall i :: 1 <= i < |xs| ==> xs[i] == xs[1..][i - 1];
      if xs[0] <= rest then xs[0] else rest
  }

  /** `max(packet_sizes)`: a member that no member is above. */
  function Maximum(xs: seq<nat>): (r: nat)
    requires xs != []
    ensures r in xs && forall i :: 0 <= i < |xs| ==> xs[i] <= r
  {
    if |xs| == 1 then xs[0]
    else
      var rest := Maximum(xs[1..]);
      assert forall i :: 1 <= i < |xs| ==> xs[i] == xs[1..][i - 1];
      if xs[0] >= rest then xs[0] else rest
  }

  /** The printed numbers, the average aside. */
  datatype SizeReport = SizeReport(totalData: nat, totalPackets: nat, packetSizes: seq<nat>, minSize: nat, maxSize: nat)

  /**
   * The script: the header loop, `next(reader)`, the loop that accumulates
   * `total_data`, `total_packets` and `packet_sizes`, then `min` and `max`,
   * which raise on an empty list.
   */
  method DataStats(rows: seq<Row>) returns (r: Result<SizeReport, StatsError>)
    ensures Sizes(rows).Failure? ==> r == Failure(Sizes(rows).error)
    ensures Sizes(rows) == Success([]) ==> r == Failure(EmptyData)
    ensures Sizes(rows).Success? && Sizes(rows).value != [] ==> r.Success?
    ensures r.Success? ==> var xs := Sizes(rows).value;
      r.value.packetSizes == xs && r.value.totalData == Sum(xs) && r.value.totalPackets == |xs|
      && r.value.minSize == Minimum(xs) && r.value.maxSize == Maximum(xs)
  {
    var located := Locate(rows, [SizeLabel]);
    if located.Failure? {
      return Failure(located.error);
    }
    var indice, data := located.value.columns[0], located.value.data;
    ghost var read := SizeReader(located.value.columns);
    var totalData, totalPackets := 0, 0;
    var packetSizes: seq<nat> := [];
    var i := 0;
    while i < |data|
      invariant i <= |data|
      invariant ReadRows(read, data[..i]) == Success(packetSizes)
      invariant totalData == Sum(packetSizes) && totalPackets == |packetSizes|
    {
      ReadRowsStep(read, data, i);
      var packetSize := ReadSize(indice, data[i]);
      assert read(data[i]) == packetSize;
      if packetSize.Failure? {
        ReadRowsFailurePersists(read, data, i + 1);
        return Failure(packetSize.error);
      }
      SumAppend(packetSizes, packetSize.value);
      totalData := totalData + packetSize.value;
      totalPackets := totalPackets + 1;
      packetSizes := packetSizes + [packetSize.value];
      i := i + 1;
    }
    assert data[..i] == data;
    if packetSizes == [] {
      return Failure(EmptyData);
    }
    r := Success(SizeReport(totalData, totalPackets, packetSizes, Minimum(packetSizes), Maximum(packetSizes)));
  }

  /** `total_packets * min_size <= total_data <= total_packets * max_size`: the average lies between the extremes. */
  lemma {:induction false} AverageBounds(xs: seq<nat>)
    requires xs != []
    ensures |xs| * Minimum(xs) <= Sum(xs) <= |xs| * Maximum(xs)
  {
    var lo, hi := Minimum(xs), Maximum(xs);
    SumBounds(xs, lo, hi);
  }

  lemma {:induction false} SumBounds(xs: seq<nat>, lo: nat, hi: nat)
    requires forall i :: 0 <= i < |xs| ==> lo <= xs[i] <= hi
    ensures |xs| * lo <= Sum(xs) <= |xs| * hi
    decreases |xs|
  {
    if xs != [] {
      assert forall i :: 0 <= i < |xs[1..]| ==> xs[1..][i] == xs[i + 1];
      SumBounds(xs[1..], lo, hi);
      assert |xs| * lo == lo + |xs[1..]| * lo;
      assert |xs| * hi == hi + |xs[1..]| * hi;
    }
  }

  /** The sniffer's header row has "Packet Size" in its last column. */
  lemma SizeColumnOfSniffer()
    ensures IndicesOf(FastSniffer.CsvHeader, [SizeLabel]) == Success([5])
  {
    var header := FastSniffer.CsvHeader;
    assert header[5] == SizeLabel;
    assert SizeLabel !in header[..5];
    assert IndexOf(header, SizeLabel) == Success(5);
    assert [SizeLabel][1..] == [];
    assert IndicesOf(header, []) == Success([]);
    assert [5] + [] == [5];
  }

  /** A row the sniffer wrote reads back as its packet size. */
  lemma SniffedRowSize(sniffed: seq<FastSniffer.Row>, i: nat)
    requires i < |sniffed|
    ensures ReadSize(5, FastSniffer.CsvRows(sniffed)[i + 1]) == Success(sniffed[i].packetSize)
  {
    var cells := FastSniffer.Cells(sniffed[i]);
    assert FastSniffer.CsvRows(sniffed)[i + 1] == cells;
    assert Int(cells[5]) == Success(sniffed[i].packetSize);
  }

  /** The packet sizes of the saved packets but the first. */
  function LaterSizes(sniffed: seq<FastSniffer.Row>): (r: seq<nat>)
    requires |sniffed| >= 1
    ensures |r| == |sniffed| - 1 && forall i :: 1 <= i < |sniffed| ==> r[i - 1] == sniffed[i].packetSize
  {
    seq(|sniffed| - 1, i requires 0 <= i < |sniffed| - 1 => sniffed[i + 1].packetSize)
  }

  /** Every row the sniffer wrote after the header reads back as its packet size. */
  lemma SniffedRowsRead(sniffed: seq<FastSniffer.Row>)
    requires |sniffed| >= 1
    ensures var rows := FastSniffer.CsvRows(sniffed);
      rows[0] == FastSniffer.CsvHeader && |rows| >= 2 && |LaterSizes(sniffed)| == |rows| - 2
      && forall i :: 2 <= i < |rows| ==> ReadSize(5, rows[i]) == Success(LaterSizes(sniffed)[i - 2])
  {
    var rows := FastSniffer.CsvRows(sniffed);
    forall i | 2 <= i < |rows| ensures ReadSize(5, rows[i]) == Success(LaterSizes(sniffed)[i - 2]) {
      SniffedRowSize(sniffed, i - 1);
    }
  }

  /**
   * Reading back what the fast sniffer wrote: its header row, then one row
   * of cells per saved packet. The script finds "Packet Size" in the last
   * column and reads every size but the first packet's, which `next(reader)`
   * skips.
   */
  lemma SniffedSizes(sniffed: seq<FastSniffer.Row>)
    requires |sniffed| >= 1
    ensures Sizes(FastSniffer.CsvRows(sniffed)) == Success(LaterSizes(sniffed))
  {
    SniffedRowsRead(sniffed);
    SizeColumnOfSniffer();
    SizesAfterHeader(FastSniffer.CsvRows(sniffed), LaterSizes(sniffed));
  }

  /** A header with "Packet Size" in column 5, a row that is skipped, then rows whose fifth cells read as the given sizes. */
  lemma SizesAfterHeader(rows: seq<Row>, sizes: seq<nat>)
    requires |rows| >= 2 && IndicesOf(rows[0], [SizeLabel]) == Success([5])
    requires |sizes| == |rows| - 2
    requires forall i :: 2 <= i < |rows| ==> ReadSize(5, rows[i]) == Success(sizes[i - 2])
    ensures Sizes(rows) == Success(sizes)
  {
    var data := rows[2..];
    assert Locate(rows, [SizeLabel]) == Success(Table([5], data));
    var read := SizeReader([5]);
    ReadRowsCharacterized(read, data);
    forall i | 0 <= i < |data| ensures read(data[i]) == Success(sizes[i]) {
      assert data[i] == rows[i + 2];
    }
    assert ReadRows(read, data).value == sizes;
  }
}
