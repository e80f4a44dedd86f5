/**
 * The dictionary version of distance-vector routing (assignment3/Q3/network.py):
 * every iteration copies the tables, computes every candidate from the old
 * tables, writes improvements into the copy, and the loop ends after an
 * iteration without an update.
 */
module Network {
  import opened Results
  import opened Routing

  /** `initialize_distance_tables`: one table per node, one entry per destination, in topology order. */
  method InitializeDistanceTables(topo: Topology) returns (tables: Tables)
    requires Valid(topo)
    ensures tables == InitialTables(topo)
  {
    tables := map[];
    for i := 0 to |topo.nodes|
      invariant forall n :: n in tables <==> n in topo.nodes[..i]
      invariant forall n :: n in tables ==> tables[n] == InitialRow(topo, n)
    {
      var node := topo.nodes[i];
      var table := InitializeRow(topo, node);
      tables := tables[node := table];
      PrefixStep(topo.nodes, i);
    }
    AllRows(topo, tables);
  }

  lemma AllRows(topo: Topology, tables: Tables)
    requires Closed(topo)
    requires forall n :: n in tables <==> n in topo.nodes[..|topo.nodes|]
    requires forall n :: n in tables ==> tables[n] == InitialRow(topo, n)
    ensures tables == InitialTables(topo)
  {
    assert topo.nodes[..|topo.nodes|] == topo.nodes;
    SameMap(tables, InitialTables(topo));
  }

  /**
   * The inner loop of `initialize_distance_tables`: cost 0 through itself
   * for the node, the link cost through the neighbour for a neighbour, and
   * `math.inf` with no next hop for any other node.
   */
  method InitializeRow(topo: Topology, node: Name) returns (table: Table)
    requires node in topo.links
    ensures table == InitialRow(topo, node)
  {
    table := map[];
    for k := 0 to |topo.nodes|
      invariant forall d :: d in table <==> d in topo.nodes[..k]
      invariant forall d :: d in table ==> table[d] == InitialEntry(topo, node, d)
    {
      var dest := topo.nodes[k];
      if dest == node {
        table := table[dest := Entry(Fin(0), Some(node))];
      } else {
        match LinkTo(topo.links[node], dest)
        case Some(c) =>
          table := table[dest := Entry(Fin(c), Some(dest))];
        case None =>
          table := table[dest := Entry(Inf, None)];
      }
      PrefixStep(topo.nodes, k);
    }
    assert topo.nodes[..|topo.nodes|] == topo.nodes;
    SameMap(table, InitialRow(topo, node));
  }

  /**
   * The candidates for `new_tables[node][dest]`, one per neighbour in
   * neighbour order: `tables[node][neighbor][0] + tables[neighbor][dest][0]`.
   */
  ghost function Vias(topo: Topology, t: Tables, n: Name, d: Name): seq<(Name, Cost)>
    requires n in topo.links
  {
    var links := topo.links[n];
    seq(|links|, j requires 0 <= j < |links| => (links[j].to, Plus(At(t, n, links[j].to), At(t, links[j].to, d))))
  }

  /**
   * What the neighbour loop leaves in `new_tables[node][dest]`: each
   * candidate is compared with the OLD cost, so the last neighbour that
   * beats it wins; with none, the old entry stays.
   */
  function Pick(e: Entry, cands: seq<(Name, Cost)>): (r: Entry)
    ensures r == e || (Below(r.cost, e.cost) && r.nextHop.Some?)
    decreases |cands|
  {
    if cands == [] then e
    else
      var last := cands[|cands| - 1];
      if Below(last.1, e.cost) then Entry(last.1, Some(last.0)) else Pick(e, cands[..|cands| - 1])
  }

  /**
   * The entry changes exactly when some neighbour beats the old cost, and
   * then it is the LAST such neighbour's candidate, whether or not it is
   * the cheapest.
   */
  lemma {:induction false} PickLastImprover(e: Entry, cands: seq<(Name, Cost)>)
    ensures Pick(e, cands) != e <==> exists j :: 0 <= j < |cands| && Below(cands[j].1, e.cost)
    ensures Pick(e, cands) != e ==>
      exists j :: (0 <= j < |cands| && Pick(e, cands) == Entry(cands[j].1, Some(cands[j].0)) && Below(cands[j].1, e.cost)
        && forall i :: j < i < |cands| ==> !Below(cands[i].1, e.cost))
    decreases |cands|
  {
    if cands != [] {
      var init := cands[..|cands| - 1];
      PickLastImprover(e, init);
      assert forall j :: 0 <= j < |init| ==> init[j] == cands[j];
    }
  }

  /** One more candidate: the body of the neighbour loop for one destination. */
  lemma PickStep(e: Entry, cands: seq<(Name, Cost)>, j: nat)
    requires j < |cands|
    ensures Pick(e, cands[..j + 1]) ==
      if Below(cands[j].1, e.cost) then Entry(cands[j].1, Some(cands[j].0)) else Pick(e, cands[..j])
  {
    assert cands[..j + 1][..j] == cands[..j];
  }

  /** A node's row after the neighbour loop has gone through its first `j` neighbours. */
  ghost function PickRow(topo: Topology, t: Tables, n: Name, j: nat): Table
    requires n in topo.links && j <= |topo.links[n]|
  {
    map d | d in topo.nodes :: Pick(EntryAt(t, n, d), Vias(topo, t, n, d)[..j])
  }

  /** The entry one iteration leaves for `node` and `dest`: the old entry and every neighbour's candidate. */
  ghost function RoundEntry(topo: Topology, t: Tables, n: Name, d: Name): Entry
    requires n in topo.links
  {
    Pick(EntryAt(t, n, d), Vias(topo, t, n, d))
  }

  /** `new_tables` at the end of one iteration of the `while updated` loop. */
  ghost function NetRound(topo: Topology, t: Tables): Tables
    requires Closed(topo)
  {
    map n | n in topo.nodes :: map d | d in topo.nodes :: RoundEntry(topo, t, n, d)
  }

  /** Before any neighbour, the row is the old row. */
  lemma PickRowStart(topo: Topology, t: Tables, n: Name)
    requires Shaped(topo, t) && n in topo.nodes && n in topo.links
    ensures PickRow(topo, t, n, 0) == t[n]
  {
    SameMap(PickRow(topo, t, n, 0), t[n]);
  }

  /** After the last neighbour, the row is the row of NetRound. */
  lemma PickRowEnd(topo: Topology, t: Tables, n: Name)
    requires Closed(topo) && n in topo.nodes
    ensures PickRow(topo, t, n, |topo.links[n]|) == NetRound(topo, t)[n]
  {
    forall d | d in topo.nodes ensures Vias(topo, t, n, d)[..|topo.links[n]|] == Vias(topo, t, n, d) {
    }
    SameMap(PickRow(topo, t, n, |topo.links[n]|), NetRound(topo, t)[n]);
  }

  /** A node's row while the destination loop for neighbour `j` has gone through the first `k` destinations. */
  ghost function MixRow(topo: Topology, t: Tables, n: Name, j: nat, k: nat): Table
    requires n in topo.links && j < |topo.links[n]| && k <= |topo.nodes|
  {
    map d | d in topo.nodes ::
      if d in topo.nodes[..k] then Pick(EntryAt(t, n, d), Vias(topo, t, n, d)[..j + 1])
      else Pick(EntryAt(t, n, d), Vias(topo, t, n, d)[..j])
  }

  /** No destination done: the row after the previous neighbour. */
  lemma MixRowStart(topo: Topology, t: Tables, n: Name, j: nat)
    requires n in topo.links && j < |topo.links[n]|
    ensures MixRow(topo, t, n, j, 0) == PickRow(topo, t, n, j)
  {
    SameMap(MixRow(topo, t, n, j, 0), PickRow(topo, t, n, j));
  }

  /** All destinations done: the row after this neighbour. */
  lemma MixRowDone(topo: Topology, t: Tables, n: Name, j: nat)
    requires n in topo.links && j < |topo.links[n]|
    ensures MixRow(topo, t, n, j, |topo.nodes|) == PickRow(topo, t, n, j + 1)
  {
    assert topo.nodes[..|topo.nodes|] == topo.nodes;
    SameMap(MixRow(topo, t, n, j, |topo.nodes|), PickRow(topo, t, n, j + 1));
  }

  /** One destination more: its entry takes the neighbour's candidate when that beats the old cost. */
  lemma MixRowStep(topo: Topology, t: Tables, n: Name, j: nat, k: nat)
    requires DistinctNodes(topo) && n in topo.links && j < |topo.links[n]| && k < |topo.nodes|
    ensures var d, via := topo.nodes[k], Vias(topo, t, n, topo.nodes[k])[j];
      MixRow(topo, t, n, j, k + 1) ==
        if Below(via.1, At(t, n, d)) then MixRow(topo, t, n, j, k)[d := Entry(via.1, Some(via.0))]
        else MixRow(topo, t, n, j, k)
  {
    var d := topo.nodes[k];
    PrefixStep(topo.nodes, k);
    PickStep(EntryAt(t, n, d), Vias(topo, t, n, d), j);
    assert d !in topo.nodes[..k];
    var via := Vias(topo, t, n, d)[j];
    if Below(via.1, At(t, n, d)) {
      SameMap(MixRow(topo, t, n, j, k + 1), MixRow(topo, t, n, j, k)[d := Entry(via.1, Some(via.0))]);
    } else {
      SameMap(MixRow(topo, t, n, j, k + 1), MixRow(topo, t, n, j, k));
    }
  }

  /**
   * The destination loop for one neighbour: every destination whose
   * candidate through the neighbour beats the old cost gets that candidate
   * in the copy, and `updated` is set.
   */
  method RelaxVia(topo: Topology, tables: Tables, newTables: Tables, updated: bool, node: Name, j: nat)
    returns (newTables': Tables, updated': bool)
    requires DistinctNodes(topo) && Closed(topo) && Shaped(topo, tables) && node in topo.links && j < |topo.links[node]|
    requires node in newTables && newTables[node] == PickRow(topo, tables, node, j)
    requires updated <==> newTables != tables
    ensures newTables' == newTables[node := PickRow(topo, tables, node, j + 1)]
    ensures updated' <==> newTables' != tables
  {
    MixRowStart(topo, tables, node, j);
    UpdateSame(newTables, node);
    newTables', updated' := newTables, updated;
    for k := 0 to |topo.nodes|
      invariant newTables' == newTables[node := MixRow(topo, tables, node, j, k)]
      invariant updated' <==> newTables' != tables
    {
      newTables', updated' := RelaxEntry(topo, tables, newTables, newTables', updated', node, j, k);
    }
    MixRowDone(topo, tables, node, j);
  }

  /**
   * The body of the destination loop: `current_cost` and
   * `cost_via_neighbor` from the old tables, and the write into the copy
   * when the second is smaller.
   */
  method RelaxEntry(topo: Topology, tables: Tables, ghost base: Tables, newTables: Tables, updated: bool, node: Name, j: nat, k: nat)
    returns (newTables': Tables, updated': bool)
    requires DistinctNodes(topo) && Closed(topo) && Shaped(topo, tables)
    requires node in topo.links && j < |topo.links[node]| && k < |topo.nodes|
    requires newTables == base[node := MixRow(topo, tables, node, j, k)]
    requires updated <==> newTables != tables
    ensures newTables' == base[node := MixRow(topo, tables, node, j, k + 1)]
    ensures updated' <==> newTables' != tables
  {
    var neighbor := topo.links[node][j].to;
    var dest := topo.nodes[k];
    MixRowStep(topo, tables, node, j, k);
    var currentCost := tables[node][dest].cost;
    var costViaNeighbor := Plus(tables[node][neighbor].cost, tables[neighbor][dest].cost);
    assert (neighbor, costViaNeighbor) == Vias(topo, tables, node, dest)[j] && currentCost == At(tables, node, dest);
    newTables', updated' := newTables, updated;
    if Below(costViaNeighbor, currentCost) {
      ghost var row := MixRow(topo, tables, node, j, k);
      newTables' := newTables'[node := newTables'[node][dest := Entry(costViaNeighbor, Some(neighbor))]];
      UpdateTwice(base, node, row, row[dest := Entry(costViaNeighbor, Some(neighbor))]);
      updated' := true;
      assert newTables'[node][dest] != tables[node][dest];
    }
  }

  /** The tables while the node loop has gone through the first `i` nodes. */
  ghost function Partial(topo: Topology, t: Tables, i: nat): Tables
    requires Closed(topo) && Shaped(topo, t) && i <= |topo.nodes|
  {
    map n | n in topo.nodes :: if n in topo.nodes[..i] then NetRound(topo, t)[n] else t[n]
  }

  /** No node done: the old tables. All done: the tables of NetRound. */
  lemma PartialEnds(topo: Topology, t: Tables)
    requires Closed(topo) && Shaped(topo, t)
    ensures Partial(topo, t, 0) == t
    ensures Partial(topo, t, |topo.nodes|) == NetRound(topo, t)
  {
    SameMap(Partial(topo, t, 0), t);
    assert topo.nodes[..|topo.nodes|] == topo.nodes;
    SameMap(Partial(topo, t, |topo.nodes|), NetRound(topo, t));
  }

  /** Before node `i`, its row is still the old one. */
  lemma PartialUntouched(topo: Topology, t: Tables, i: nat)
    requires DistinctNodes(topo) && Closed(topo) && Shaped(topo, t) && i < |topo.nodes|
    ensures Partial(topo, t, i)[topo.nodes[i] := PickRow(topo, t, topo.nodes[i], 0)] == Partial(topo, t, i)
  {
    var n := topo.nodes[i];
    assert n !in topo.nodes[..i];
    PickRowStart(topo, t, n);
    UpdateSame(Partial(topo, t, i), n);
  }

  /** After node `i`, its row is the row of NetRound. */
  lemma PartialNext(topo: Topology, t: Tables, i: nat)
    requires Closed(topo) && Shaped(topo, t) && i < |topo.nodes|
    ensures Partial(topo, t, i + 1) == Partial(topo, t, i)[topo.nodes[i] := NetRound(topo, t)[topo.nodes[i]]]
  {
    PartialNextKeys(topo, t, i);
    var a, b := Partial(topo, t, i + 1), Partial(topo, t, i)[topo.nodes[i] := NetRound(topo, t)[topo.nodes[i]]];
    forall m | m in a ensures a[m] == b[m] {
      PartialNextAt(topo, t, i, m);
    }
    SameMap(a, b);
  }

  lemma PartialNextKeys(topo: Topology, t: Tables, i: nat)
    requires Closed(topo) && Shaped(topo, t) && i < |topo.nodes|
    ensures Partial(topo, t, i + 1).Keys == Partial(topo, t, i)[topo.nodes[i] := NetRound(topo, t)[topo.nodes[i]]].Keys
  {
  }

  lemma PartialNextAt(topo: Topology, t: Tables, i: nat, m: Name)
    requires Closed(topo) && Shaped(topo, t) && i < |topo.nodes| && m in topo.nodes
    ensures var n := topo.nodes[i];
      Partial(topo, t, i + 1)[m] == Partial(topo, t, i)[n := NetRound(topo, t)[n]][m]
  {
    PrefixStep(topo.nodes, i);
    PartialAt(topo, t, i + 1, m);
    PartialAt(topo, t, i, m);
  }

  lemma PartialAt(topo: Topology, t: Tables, i: nat, m: Name)
    requires Closed(topo) && Shaped(topo, t) && i <= |topo.nodes| && m in topo.nodes
    ensures Partial(topo, t, i)[m] == if m in topo.nodes[..i] then NetRound(topo, t)[m] else t[m]
  {
  }

  /** A second write to the same key overrides the first. */
  lemma UpdateTwice<K, V>(m: map<K, V>, k: K, x: V, y: V)
    ensures m[k := x][k := y] == m[k := y]
  {
    SameMap(m[k := x][k := y], m[k := y]);
  }

  /**
   * One iteration of the `while updated` loop: `new_tables` starts as a copy
   * of `tables`, then the node, neighbour and destination loops; `updated`
   * says whether the copy differs from the old tables.
   */
  method Relax(topo: Topology, tables: Tables) returns (newTables: Tables, updated: bool)
    requires DistinctNodes(topo) && Closed(topo) && Shaped(topo, tables)
    ensures newTables == NetRound(topo, tables)
    ensures updated <==> newTables != tables
  {
    updated := false;
    newTables := tables;
    PartialEnds(topo, tables);
    for i := 0 to |topo.nodes|
      invariant newTables == Partial(topo, tables, i)
      invariant updated <==> newTables != tables
    {
      var node := topo.nodes[i];
      PartialUntouched(topo, tables, i);
      PartialNext(topo, tables, i);
      PickRowEnd(topo, tables, node);
      ghost var before := newTables;
      for j := 0 to |topo.links[node]|
        invariant newTables == before[node := PickRow(topo, tables, node, j)]
        invariant updated <==> newTables != tables
      {
        newTables, updated := RelaxVia(topo, tables, newTables, updated, node, j);
        UpdateTwice(before, node, PickRow(topo, tables, node, j), PickRow(topo, tables, node, j + 1));
      }
    }
  }

  /**
   * `distance_vector_routing`: the initial tables, then iterations until one
   * changes nothing. The result is a fixed point of an iteration, and every
   * entry holds the cost of a cheapest walk (`math.inf` where there is none).
   */
  method DistanceVectorRouting(topo: Topology) returns (tables: Tables)
    requires Valid(topo)
    ensures Shaped(topo, tables) && NetRound(topo, tables) == tables
    ensures forall n, d :: n in tables && d in tables[n] ==> Shortest(topo, n, d, tables[n][d].cost)
  {
    tables := InitializeDistanceTables(topo);
    InitialShape(topo);
    InitialHops(topo);
    InitialLinkBound(topo);
    InitialRealized(topo);
    var updated := true;
    while updated
      invariant Shaped(topo, tables) && SelfZero(tables) && Hops(topo, tables)
      invariant LinkBound(topo, tables) && Realized(topo, tables)
      invariant !updated ==> NetRound(topo, tables) == tables
      decreases Infs(Costs(tables, topo.nodes, topo.nodes)), Fins(Costs(tables, topo.nodes, topo.nodes)), if updated then 1 else 0
    {
      var newTables;
      newTables, updated := Relax(topo, tables);
      NetRoundImproves(topo, tables);
      NetRoundSelfZero(topo, tables);
      NetRoundHops(topo, tables);
      NetRoundLinkBound(topo, tables);
      NetRoundRealized(topo, tables);
      if updated {
        ImprovedShrinks(topo, tables, newTables);
      }
      tables := newTables;
    }
    FixedPointSettled(topo, tables);
    SettledIsShortest(topo, tables);
  }

  /** A round keeps a next hop for another destination exactly when its cost is finite, and a neighbour. */
  lemma RoundEntryHop(topo: Topology, t: Tables, n: Name, d: Name)
    requires n in topo.links && HopOk(topo, n, d, EntryAt(t, n, d))
    ensures HopOk(topo, n, d, RoundEntry(topo, t, n, d))
  {
    var cands := Vias(topo, t, n, d);
    PickLastImprover(EntryAt(t, n, d), cands);
    if RoundEntry(topo, t, n, d) != EntryAt(t, n, d) {
      var j :| 0 <= j < |cands| && RoundEntry(topo, t, n, d) == Entry(cands[j].1, Some(cands[j].0));
      assert topo.links[n][j].to == cands[j].0;
    }
  }

  /** A finite cost a round writes is a walk to the neighbour joined to the neighbour's walk. */
  lemma RoundEntryWalk(topo: Topology, t: Tables, n: Name, d: Name)
    requires n in topo.links && Realized(topo, t) && Walked(topo, n, d, At(t, n, d))
    ensures Walked(topo, n, d, RoundEntry(topo, t, n, d).cost)
  {
    var cands := Vias(topo, t, n, d);
    PickLastImprover(EntryAt(t, n, d), cands);
    if RoundEntry(topo, t, n, d) != EntryAt(t, n, d) {
      var j :| 0 <= j < |cands| && RoundEntry(topo, t, n, d) == Entry(cands[j].1, Some(cands[j].0)) && Below(cands[j].1, At(t, n, d));
      JoinVia(topo, t, n, topo.links[n][j].to, d);
    }
  }

  /** A finite cost through a neighbour is the cost of the two walks joined. */
  lemma JoinVia(topo: Topology, t: Tables, n: Name, nb: Name, d: Name)
    requires Realized(topo, t) && Plus(At(t, n, nb), At(t, nb, d)).Fin?
    ensures Walked(topo, n, d, Plus(At(t, n, nb), At(t, nb, d)))
  {
    RealizedAt(topo, t, n, nb);
    RealizedAt(topo, t, nb, d);
    WalkedJoin(topo, n, nb, d, At(t, n, nb), At(t, nb, d));
  }

  /** Realized in terms of At. */
  lemma RealizedAt(topo: Topology, t: Tables, n: Name, d: Name)
    requires Realized(topo, t)
    ensures Walked(topo, n, d, At(t, n, d))
  {
    if n in t && d in t[n] {
      assert Walked(topo, n, d, t[n][d].cost);
    }
  }

  /** An iteration keeps the shape and only lowers costs. */
  lemma NetRoundImproves(topo: Topology, t: Tables)
    requires Closed(topo) && Shaped(topo, t)
    ensures Improved(topo, t, NetRound(topo, t))
  {
    var t': Tables := NetRound(topo, t);
    forall n: Name, d: Name | n in t && d in t[n] && n in t' && d in t'[n]
      ensures t'[n][d] == t[n][d] || Below(t'[n][d].cost, t[n][d].cost)
    {
    }
  }

  /** An iteration keeps each node's zero-cost entry for itself: nothing is below 0. */
  lemma NetRoundSelfZero(topo: Topology, t: Tables)
    requires Closed(topo) && Shaped(topo, t) && SelfZero(t)
    ensures SelfZero(NetRound(topo, t))
  {
    var t': Tables := NetRound(topo, t);
    forall n | n in t' ensures n in t'[n] && t'[n][n] == Entry(Fin(0), Some(n)) {
      RoundEntrySelf(topo, t, n);
    }
  }

  /** Nothing beats cost 0. */
  lemma RoundEntrySelf(topo: Topology, t: Tables, n: Name)
    requires n in topo.links && EntryAt(t, n, n) == Entry(Fin(0), Some(n))
    ensures RoundEntry(topo, t, n, n) == Entry(Fin(0), Some(n))
  {
  }

  /** An iteration keeps every next hop a neighbour. */
  lemma NetRoundHops(topo: Topology, t: Tables)
    requires Closed(topo) && Shaped(topo, t) && Hops(topo, t)
    ensures Hops(topo, NetRound(topo, t))
  {
    var t': Tables := NetRound(topo, t);
    forall n: Name, d: Name | n in t' && d in t'[n] ensures HopOk(topo, n, d, t'[n][d]) {
      RoundEntryHop(topo, t, n, d);
    }
  }

  /** An iteration keeps every entry for a neighbour within its link cost, since it only lowers costs. */
  lemma NetRoundLinkBound(topo: Topology, t: Tables)
    requires Closed(topo) && Shaped(topo, t) && LinkBound(topo, t)
    ensures LinkBound(topo, NetRound(topo, t))
  {
    var t': Tables := NetRound(topo, t);
    forall n: Name, j: nat | n in t' && n in topo.links && 0 <= j < |topo.links[n]|
      ensures topo.links[n][j].to in t'[n] && AtMost(t'[n][topo.links[n][j].to].cost, Fin(topo.links[n][j].cost))
    {
      RoundEntryNoWorse(topo, t, n, topo.links[n][j].to);
    }
  }

  lemma RoundEntryNoWorse(topo: Topology, t: Tables, n: Name, d: Name)
    requires n in topo.links
    ensures AtMost(RoundEntry(topo, t, n, d).cost, At(t, n, d))
  {
  }

  /** An iteration keeps every finite cost the cost of a walk. */
  lemma NetRoundRealized(topo: Topology, t: Tables)
    requires Closed(topo) && Shaped(topo, t) && Realized(topo, t)
    ensures Realized(topo, NetRound(topo, t))
  {
    var t': Tables := NetRound(topo, t);
    forall n: Name, d: Name | n in t' && d in t'[n] ensures Walked(topo, n, d, t'[n][d].cost) {
      RoundEntryWalk(topo, t, n, d);
    }
  }

  /** An entry no neighbour beats, with the entry for the neighbour within the link cost, is within the link plus the neighbour's cost. */
  lemma FixedEntry(topo: Topology, t: Tables, n: Name, j: nat, d: Name)
    requires n in topo.links && j < |topo.links[n]| && RoundEntry(topo, t, n, d) == EntryAt(t, n, d)
    requires AtMost(At(t, n, topo.links[n][j].to), Fin(topo.links[n][j].cost))
    ensures AtMost(At(t, n, d), Plus(Fin(topo.links[n][j].cost), At(t, topo.links[n][j].to, d)))
  {
    var cands := Vias(topo, t, n, d);
    PickLastImprover(EntryAt(t, n, d), cands);
    assert !Below(cands[j].1, At(t, n, d));
  }

  /** At the fixed point every entry is what an iteration would write for it. */
  lemma FixedRound(topo: Topology, t: Tables, n: Name, d: Name)
    requires Closed(topo) && NetRound(topo, t) == t && n in topo.nodes && d in topo.nodes
    ensures RoundEntry(topo, t, n, d) == EntryAt(t, n, d)
  {
  }

  /** LinkBound in terms of At. */
  lemma LinkBoundAt(topo: Topology, t: Tables, n: Name, j: nat)
    requires LinkBound(topo, t) && n in t && n in topo.links && j < |topo.links[n]|
    ensures AtMost(At(t, n, topo.links[n][j].to), Fin(topo.links[n][j].cost))
  {
  }

  /**
   * At the fixed point no neighbour beats any entry; with entries for
   * neighbours within the link costs, that is the Bellman-Ford condition.
   */
  lemma FixedPointSettled(topo: Topology, t: Tables)
    requires Closed(topo) && Shaped(topo, t) && LinkBound(topo, t) && NetRound(topo, t) == t
    ensures Settled(topo, t)
  {
    forall n, j, d | n in topo.links && 0 <= j < |topo.links[n]|
      ensures AtMost(At(t, n, d), Plus(Fin(topo.links[n][j].cost), At(t, topo.links[n][j].to, d)))
    {
      FixedLink(topo, t, n, j, d);
    }
  }

  lemma FixedLink(topo: Topology, t: Tables, n: Name, j: nat, d: Name)
    requires Closed(topo) && Shaped(topo, t) && LinkBound(topo, t) && NetRound(topo, t) == t
    requires n in topo.links && j < |topo.links[n]|
    ensures AtMost(At(t, n, d), Plus(Fin(topo.links[n][j].cost), At(t, topo.links[n][j].to, d)))
  {
    if d in topo.nodes {
      FixedRound(topo, t, n, d);
      LinkBoundAt(topo, t, n, j);
      FixedEntry(topo, t, n, j, d);
    }
  }
}
