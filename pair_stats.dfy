/**
 * The pair statistics (assignment1/pair_stats.py): the set of distinct
 * ordered (source address, source port, destination address, destination
 * port) tuples among the data rows, and its size.
 */
module PairStats {
  import opened Results
  import opened Columns
  import opened Tally
  import FlowStats

  type Flow = FlowStats.Flow

  /** The four reads of the loop body, at the header positions. */
  function ReadPair(srcIpAt: nat, destIpAt: nat, srcPortAt: nat, destPortAt: nat, row: Row): (r: Result<Flow, StatsError>)
    ensures r.Success? <==> srcIpAt < |row| && destIpAt < |row| && srcPortAt < |row| && destPortAt < |row|
    ensures r.Success? ==> r.value == FlowStats.Flow(row[srcIpAt], row[srcPortAt], row[destIpAt], row[destPortAt])
  {
    var srcIp :- Field(row, srcIpAt);
    var destIp :- Field(row, destIpAt);
    var srcPort :- Field(row, srcPortAt);
    var destPort :- Field(row, destPortAt);
    Success(FlowStats.Flow(srcIp, srcPort, destIp, destPort))
  }

  function PairReader(columns: seq<nat>): Row -> Result<Flow, StatsError>
  {
    if |columns| == 4 then row => ReadPair(columns[0], columns[1], columns[2], columns[3], row)
    else row => Failure(NoMoreRows)
  }

  /** The tuples of the data rows, in row order, or the first exception. */
  function Pairs(rows: seq<Row>): Result<seq<Flow>, StatsError>
  {
    var table :- Locate(rows, FlowStats.Labels);
    ReadRows(PairReader(table.columns), table.data)
  }

  /** The tuples that occur among the given ones. */
  function PairSet(fs: seq<Flow>): set<Flow>
  {
    set i | 0 <= i < |fs| :: fs[i]
  }

  /** `unique_pairs.add(t)`: one more tuple adds it to the set, and a tuple already there changes nothing. */
  lemma PairSetAppend(fs: seq<Flow>, f: Flow)
    ensures PairSet(fs + [f]) == PairSet(fs) + {f}
    ensures f in PairSet(fs) ==> PairSet(fs + [f]) == PairSet(fs)
  {
    var gs := fs + [f];
    assert gs[|fs|] == f;
    forall g | g in PairSet(gs) ensures g in PairSet(fs) + {f} {
      var i :| 0 <= i < |gs| && gs[i] == g;
      if i < |fs| {
        assert fs[i] == g;
      }
    }
    forall g | g in PairSet(fs) ensures g in PairSet(gs) {
      var i :| 0 <= i < |fs| && fs[i] == g;
      assert gs[i] == g;
    }
  }

  /**
   * The script: the header loop, `next(reader)`, and the loop that adds
   * each row's tuple to `unique_pairs`.
   */
  method UniquePairs(rows: seq<Row>) returns (r: Result<set<Flow>, StatsError>)
    ensures r == match Pairs(rows)
      case Failure(e) => Failure(e)
      case Success(fs) => Success(PairSet(fs))
  {
    var located := Locate(rows, FlowStats.Labels);
    if located.Failure? {
      return Failure(located.error);
    }
    var columns, data := located.value.columns, located.value.data;
    ghost var read := PairReader(columns);
    var uniquePairs: set<Flow> := {};
    ghost var fs: seq<Flow> := [];
    var i := 0;
    while i < |data|
      invariant i <= |data|
      invariant ReadRows(read, data[..i]) == Success(fs)
      invariant uniquePairs == PairSet(fs)
    {
      ReadRowsStep(read, data, i);
      var pair := ReadPair(columns[0], columns[1], columns[2], columns[3], data[i]);
      assert read(data[i]) == pair;
      if pair.Failure? {
        ReadRowsFailurePersists(read, data, i + 1);
        return Failure(pair.error);
      }
      uniquePairs := uniquePairs + {pair.value};
      PairSetAppend(fs, pair.value);
      fs := fs + [pair.value];
      i := i + 1;
    }
    assert data[..i] == data;
    r := Success(uniquePairs);
  }

  /** `len(unique_pairs)` never exceeds the number of rows read. */
  lemma {:induction false} PairCountBound(fs: seq<Flow>)
    ensures |PairSet(fs)| <= |fs|
    decreases |fs|
  {
    if fs != [] {
      var init := fs[..|fs| - 1];
      PairCountBound(init);
      PairSetAppend(init, fs[|fs| - 1]);
      assert init + [fs[|fs| - 1]] == fs;
    }
  }

  /** The set depends only on which tuples occur, not on the order or number of the rows. */
  lemma OrderIndependent(fs: seq<Flow>, gs: seq<Flow>)
    requires multiset(fs) == multiset(gs)
    ensures PairSet(fs) == PairSet(gs)
  {
    forall f ensures f in PairSet(fs) <==> f in PairSet(gs) {
      calc {
        f in PairSet(fs);
        { InPairSet(fs, f); }
        f in multiset(fs);
        { InPairSet(gs, f); }
        f in PairSet(gs);
      }
    }
  }

  lemma InPairSet(fs: seq<Flow>, f: Flow)
    ensures f in PairSet(fs) <==> f in multiset(fs)
  {
    if f in multiset(fs) {
      assert f in fs;
      var i :| 0 <= i < |fs| && fs[i] == f;
    }
  }

  /** On the same rows, the distinct tuples are exactly the keys of the flow statistics' byte map. */
  lemma SameAsTransferKeys(ps: seq<FlowStats.Packet>)
    ensures PairSet(seq(|ps|, i requires 0 <= i < |ps| => ps[i].flow)) == Totals(FlowStats.Transfers(ps)).values.Keys
  {
    var fs := seq(|ps|, i requires 0 <= i < |ps| => ps[i].flow);
    TotalsCharacterized(FlowStats.Transfers(ps));
    forall f | f in Totals(FlowStats.Transfers(ps)).values ensures f in PairSet(fs) {
      var i :| 0 <= i < |ps| && FlowStats.Transfers(ps)[i].0 == f;
      assert fs[i] == f;
    }
    forall f | f in PairSet(fs) ensures f in Totals(FlowStats.Transfers(ps)).values {
      var i :| 0 <= i < |fs| && fs[i] == f;
      assert FlowStats.Transfers(ps)[i].0 == f;
    }
  }
}
