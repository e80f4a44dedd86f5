/**
 * The flow statistics (flow_stats.py): per-row counts of outgoing flows per
 * source address and incoming flows per destination address, the bytes per
 * ordered (source address, source port, destination address, destination
 * port) pair, and the pair with the most bytes.
 */
module FlowStats {
  import opened Results
  import opened Columns
  import opened Tally

  /** The headings looked up in the first row, in the order of the lookups. */
  const Labels: seq<string> := ["Src IP", "Dest IP", "Src Port", "Dest Port"]

  /** A key of `data_transfer`: `(src_ip, src_port, dest_ip, dest_port)`. */
  datatype Flow = Flow(srcIp: string, srcPort: string, destIp: string, destPort: string)

  /** What the loop body reads from one row. */
  datatype Packet = Packet(flow: Flow, size: nat)

  /**
   * The reads of the loop body, in the order of the source: the four
   * fields at the header positions, then `int(row[-1])`.
   */
  function ReadPacket(srcIpAt: nat, destIpAt: nat, srcPortAt: nat, destPortAt: nat, row: Row): (r: Result<Packet, StatsError>)
    ensures r.Success? <==>
      (srcIpAt < |row| && destIpAt < |row| && srcPortAt < |row| && destPortAt < |row| && Int(row[|row| - 1]).Success?)
    ensures r.Success? ==> r.value.flow == Flow(row[srcIpAt], row[srcPortAt], row[destIpAt], row[destPortAt])
    ensures r.Success? ==> Int(row[|row| - 1]) == Success(r.value.size)
  {
    var srcIp :- Field(row, srcIpAt);
    var destIp :- Field(row, destIpAt);
    var srcPort :- Field(row, srcPortAt);
    var destPort :- Field(row, destPortAt);
    // the row is not empty here, so `row[-1]` is its last field
    var size :- Int(row[|row| - 1]);
    Success(Packet(Flow(srcIp, srcPort, destIp, destPort), size))
  }

  function PacketReader(columns: seq<nat>): Row -> Result<Packet, StatsError>
  {
    if |columns| == 4 then row => ReadPacket(columns[0], columns[1], columns[2], columns[3], row)
    else row => Failure(NoMoreRows)
  }

  /** The packets of the data rows, or the first exception. */
  function Packets(rows: seq<Row>): Result<seq<Packet>, StatsError>
  {
    var table :- Locate(rows, Labels);
    ReadRows(PacketReader(table.columns), table.data)
  }

  /** `source_flows[src_ip] += 1` per packet. */
  function Sources(ps: seq<Packet>): (r: seq<(string, nat)>)
    ensures |r| == |ps| && forall i :: 0 <= i < |ps| ==> r[i] == (ps[i].flow.srcIp, 1)
  {
    seq(|ps|, i requires 0 <= i < |ps| => (ps[i].flow.srcIp, 1))
  }

  /** `dest_flows[dest_ip] += 1` per packet. */
  function Dests(ps: seq<Packet>): (r: seq<(string, nat)>)
    ensures |r| == |ps| && forall i :: 0 <= i < |ps| ==> r[i] == (ps[i].flow.destIp, 1)
  {
    seq(|ps|, i requires 0 <= i < |ps| => (ps[i].flow.destIp, 1))
  }

  /** `data_transfer[flow] += packet_size` per packet. */
  function Transfers(ps: seq<Packet>): (r: seq<(Flow, nat)>)
    ensures |r| == |ps| && forall i :: 0 <= i < |ps| ==> r[i] == (ps[i].flow, ps[i].size)
  {
    seq(|ps|, i requires 0 <= i < |ps| => (ps[i].flow, ps[i].size))
  }

  /** The three dictionaries and the answer of `max`. */
  datatype FlowReport = FlowReport(
    sourceFlows: Counter<string>, destFlows: Counter<string>, dataTransfer: Counter<Flow>,
    maxDataPair: Flow, maxDataSize: nat)

  /** What the script computes, or the exception that stops it. */
  function Report(rows: seq<Row>): Result<FlowReport, StatsError>
  {
    var ps :- Packets(rows);
    var transfer := Totals(Transfers(ps));
    match Heaviest(transfer, transfer.keys)
    case None => Failure(EmptyData)
    case Some(pair) => Success(FlowReport(Totals(Sources(ps)), Totals(Dests(ps)), transfer, pair, Get(transfer, pair)))
  }

  /** The three dictionaries after the row loop, or the exception raised in it. */
  datatype Tables = Tables(sourceFlows: Counter<string>, destFlows: Counter<string>, dataTransfer: Counter<Flow>)

  /** The updates of one loop iteration, on the dictionaries of the packets so far. */
  lemma TablesStep(ps: seq<Packet>, packet: Packet)
    ensures Totals(Sources(ps + [packet])) == Add(Totals(Sources(ps)), packet.flow.srcIp, 1)
    ensures Totals(Dests(ps + [packet])) == Add(Totals(Dests(ps)), packet.flow.destIp, 1)
    ensures Totals(Transfers(ps + [packet])) == Add(Totals(Transfers(ps)), packet.flow, packet.size)
  {
    assert Sources(ps + [packet]) == Sources(ps) + [(packet.flow.srcIp, 1)];
    assert Dests(ps + [packet]) == Dests(ps) + [(packet.flow.destIp, 1)];
    assert Transfers(ps + [packet]) == Transfers(ps) + [(packet.flow, packet.size)];
  }

  /** The row loop: each row is read, then the three dictionaries are updated. */
  method CountFlows(columns: seq<nat>, data: seq<Row>) returns (r: Result<Tables, StatsError>)
    requires |columns| == 4
    ensures r == match ReadRows(PacketReader(columns), data)
      case Failure(e) => Failure(e)
      case Success(ps) => Success(Tables(Totals(Sources(ps)), Totals(Dests(ps)), Totals(Transfers(ps))))
  {
    ghost var read := PacketReader(columns);
    var sourceFlows: Counter<string> := Counter([], map[]);
    var destFlows: Counter<string> := Counter([], map[]);
    var dataTransfer: Counter<Flow> := Counter([], map[]);
    ghost var ps: seq<Packet> := [];
    var i := 0;
    while i < |data|
      invariant i <= |data|
      invariant ReadRows(read, data[..i]) == Success(ps)
      invariant sourceFlows == Totals(Sources(ps))
      invariant destFlows == Totals(Dests(ps))
      invariant dataTransfer == Totals(Transfers(ps))
    {
      ReadRowsStep(read, data, i);
      var p := ReadPacket(columns[0], columns[1], columns[2], columns[3], data[i]);
      assert read(data[i]) == p;
      if p.Failure? {
        ReadRowsFailurePersists(read, data, i + 1);
        return Failure(p.error);
      }
      var packet := p.value;
      sourceFlows := Add(sourceFlows, packet.flow.srcIp, 1);
      destFlows := Add(destFlows, packet.flow.destIp, 1);
      dataTransfer := Add(dataTransfer, packet.flow, packet.size);
      TablesStep(ps, packet);
      ps := ps + [packet];
      i := i + 1;
    }
    assert data[..i] == data;
    r := Success(Tables(sourceFlows, destFlows, dataTransfer));
  }

  /** The script: the header loop, `next(reader)`, the row loop and `max`. */
  method FlowStats(rows: seq<Row>) returns (r: Result<FlowReport, StatsError>)
    ensures r == Report(rows)
  {
    var located := Locate(rows, Labels);
    if located.Failure? {
      return Failure(located.error);
    }
    var tables := CountFlows(located.value.columns, located.value.data);
    if tables.Failure? {
      return Failure(tables.error);
    }
    var dataTransfer := tables.value.dataTransfer;
    var best := ArgMax(dataTransfer);
    if best.None? {
      return Failure(EmptyData);
    }
    r := Success(FlowReport(tables.value.sourceFlows, tables.value.destFlows, dataTransfer, best.value, Get(dataTransfer, best.value)));
  }

  lemma {:induction false} UnitWeight<K(!new)>(entries: seq<(K, nat)>)
    requires forall i :: 0 <= i < |entries| ==> entries[i].1 == 1
    ensures Weight(entries) == |entries|
    decreases |entries|
  {
    if entries != [] {
      UnitWeight(entries[1..]);
    }
  }

  /** The bytes of all the packets, in the script's addition order. */
  function TotalSize(ps: seq<Packet>): nat
  {
    if ps == [] then 0 else ps[0].size + TotalSize(ps[1..])
  }

  lemma {:induction false} TransfersWeight(ps: seq<Packet>)
    ensures Weight(Transfers(ps)) == TotalSize(ps)
    decreases |ps|
  {
    if ps != [] {
      TransfersWeight(ps[1..]);
      assert Transfers(ps)[1..] == Transfers(ps[1..]);
    }
  }

  /**
   * The per-address counts: their values add up to the number of packets,
   * and there are as many keys as distinct addresses.
   */
  lemma AddressCounts(ps: seq<Packet>)
    ensures SumOver(Totals(Sources(ps)), Totals(Sources(ps)).keys) == |ps|
    ensures SumOver(Totals(Dests(ps)), Totals(Dests(ps)).keys) == |ps|
    ensures |Totals(Sources(ps)).values| == |set i | 0 <= i < |ps| :: ps[i].flow.srcIp|
    ensures |Totals(Dests(ps)).values| == |set i | 0 <= i < |ps| :: ps[i].flow.destIp|
  {
    TotalsSum(Sources(ps));
    TotalsSum(Dests(ps));
    UnitWeight(Sources(ps));
    UnitWeight(Dests(ps));
    KeyCount(Sources(ps));
    KeyCount(Dests(ps));
    assert (set i | 0 <= i < |ps| :: Sources(ps)[i].0) == set i | 0 <= i < |ps| :: ps[i].flow.srcIp;
    assert (set i | 0 <= i < |ps| :: Dests(ps)[i].0) == set i | 0 <= i < |ps| :: ps[i].flow.destIp;
  }

  /** The first packet of `f` comes before any packet of `g`. */
  ghost predicate SeenBefore(ps: seq<Packet>, f: Flow, g: Flow)
  {
    exists p :: 0 <= p < |ps| && ps[p].flow == f && forall q :: 0 <= q <= p ==> ps[q].flow != g
  }

  /**
   * The answer of `max` over the bytes per pair carries the most bytes, and
   * a pair with as many bytes that is not the answer first appeared after it.
   */
  lemma HeaviestPair(ps: seq<Packet>)
    requires ps != []
    ensures var d := Totals(Transfers(ps));
      Heaviest(d, d.keys).Some? && Heaviest(d, d.keys).value in d.values
      && (forall f :: f in d.values ==> Get(d, f) <= Get(d, Heaviest(d, d.keys).value))
      && forall f :: f in d.values && f != Heaviest(d, d.keys).value && Get(d, f) == Get(d, Heaviest(d, d.keys).value) ==>
           SeenBefore(ps, Heaviest(d, d.keys).value, f)
  {
    var d := Totals(Transfers(ps));
    HeaviestArrivesFirst(Transfers(ps));
    var r := Heaviest(d, d.keys).value;
    forall f | f in d.values && f != r && Get(d, f) == Get(d, r)
      ensures SeenBefore(ps, r, f)
    {
      assert ArrivesBefore(Transfers(ps), r, f);
      var p :| 0 <= p < |Transfers(ps)| && Transfers(ps)[p].0 == r && forall q :: 0 <= q <= p ==> Transfers(ps)[q].0 != f;
      assert ps[p].flow == r;
    }
  }

  /**
   * The bytes per pair: each pair's value is the total size of its packets,
   * the values add up to all the bytes, and the reported pair carries the
   * most bytes; a pair with as many bytes that is not the reported one
   * first appeared after it, since `max` keeps the first maximum it meets
   * in the dictionary's insertion order.
   */
  lemma TransferTotals(ps: seq<Packet>)
    ensures var d := Totals(Transfers(ps));
      SumOver(d, d.keys) == TotalSize(ps)
      && (forall f :: Get(d, f) == WeightOf(Transfers(ps), f))
      && (ps != [] ==>
            (Heaviest(d, d.keys).Some? && Heaviest(d, d.keys).value in d.values
             && (forall f :: f in d.values ==> Get(d, f) <= Get(d, Heaviest(d, d.keys).value))
             && forall f :: f in d.values && f != Heaviest(d, d.keys).value && Get(d, f) == Get(d, Heaviest(d, d.keys).value) ==>
                  SeenBefore(ps, Heaviest(d, d.keys).value, f)))
  {
    TotalsSum(Transfers(ps));
    TransfersWeight(ps);
    TotalsCharacterized(Transfers(ps));
    if ps != [] {
      HeaviestPair(ps);
    }
  }

  /**
   * What the printed numbers mean: one packet per data row after the
   * skipped one, and the dictionaries and the answer of `max` are those of
   * AddressCounts and TransferTotals for these packets.
   */
  lemma ReportCharacterized(rows: seq<Row>)
    requires Report(rows).Success?
    ensures Packets(rows).Success?
    ensures var rep, ps := Report(rows).value, Packets(rows).value;
      |rows| >= 3 && |ps| == |rows| - 2
      && rep.sourceFlows == Totals(Sources(ps)) && rep.destFlows == Totals(Dests(ps))
      && rep.dataTransfer == Totals(Transfers(ps))
      && rep.maxDataPair in rep.dataTransfer.values
      && rep.maxDataPair == Heaviest(rep.dataTransfer, rep.dataTransfer.keys).value
      && rep.maxDataSize == Get(rep.dataTransfer, rep.maxDataPair)
      && (forall f :: f in rep.dataTransfer.values ==> Get(rep.dataTransfer, f) <= rep.maxDataSize)
      && (forall f :: f in rep.dataTransfer.values && f != rep.maxDataPair && Get(rep.dataTransfer, f) == rep.maxDataSize ==>
            SeenBefore(ps, rep.maxDataPair, f))
  {
    var table := Locate(rows, Labels).value;
    var ps := Packets(rows).value;
    ReadRowsCharacterized(PacketReader(table.columns), table.data);
    TransferTotals(ps);
  }

  /**
   * A file whose only data row is the one `next(reader)` skips ends in
   * `max` of an empty dictionary.
   */
  lemma SingleDataRowIsEmpty(header: Row, row: Row)
    requires forall j :: 0 <= j < |Labels| ==> Labels[j] in header
    ensures Report([header, row]) == Failure(EmptyData)
  {
    var table := Locate([header, row], Labels).value;
    assert table.data == [];
  }
}
