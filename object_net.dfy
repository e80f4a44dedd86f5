/**
 * The object version of the distance-vector simulation (assignment3/Q3/object_net.py):
 * one `Node` object per router holding its own routing table, and a
 * simulation that, each iteration, takes a snapshot of all the tables and
 * lets every node recompute every entry from the snapshot, trying each
 * neighbour in turn against the best cost found so far.
 *
 * Unlike network.py, a candidate is the link cost to the neighbour plus the
 * neighbour's cost (not the node's table entry for the neighbour), and it is
 * compared with the running best, so the first cheapest neighbour wins.
 */
module ObjectNet {
  import opened Results
  import opened Routing

  /*
   * The specification of one step for one node.
   */

  /** What each neighbour offers for `d`, in the order of the links: `cost_to_neighbor` plus the neighbour's cost. */
  ghost function Offers(topo: Topology, t: Tables, n: Name, d: Name): seq<(Name, Cost)>
    requires n in topo.links
  {
    seq(|topo.links[n]|, j requires 0 <= j < |topo.links[n]| =>
      (topo.links[n][j].to, Plus(Fin(topo.links[n][j].cost), At(t, topo.links[n][j].to, d))))
  }

  /**
   * The neighbour loop: an offer strictly below the best cost so far
   * replaces it, with that neighbour as the next hop. The result is the
   * starting entry or a strictly cheaper one through some neighbour.
   */
  function RunMin(e: Entry, offers: seq<(Name, Cost)>): (r: Entry)
    ensures r == e || (Below(r.cost, e.cost) && r.nextHop.Some?)
    decreases |offers|
  {
    if offers == [] then e
    else
      var best := RunMin(e, offers[..|offers| - 1]);
      var last := offers[|offers| - 1];
      if Below(last.1, best.cost) then Entry(last.1, Some(last.0)) else best
  }

  /** The running minimum costs no more than any offer. */
  lemma {:induction false} RunMinLowest(e: Entry, offers: seq<(Name, Cost)>)
    ensures forall j :: 0 <= j < |offers| ==> AtMost(RunMin(e, offers).cost, offers[j].1)
    decreases |offers|
  {
    if offers != [] {
      var init := offers[..|offers| - 1];
      RunMinLowest(e, init);
      assert forall j :: 0 <= j < |init| ==> init[j] == offers[j];
    }
  }

  /** A changed entry is the first offer that is cheapest: every earlier offer costs strictly more. */
  lemma {:induction false} RunMinFirst(e: Entry, offers: seq<(Name, Cost)>)
    ensures RunMin(e, offers) != e ==>
      exists j :: 0 <= j < |offers| && RunMin(e, offers) == Entry(offers[j].1, Some(offers[j].0))
        && forall i :: 0 <= i < j ==> Below(offers[j].1, offers[i].1)
    decreases |offers|
  {
    if offers != [] {
      var init := offers[..|offers| - 1];
      var last := offers[|offers| - 1];
      var best := RunMin(e, init);
      assert forall j :: 0 <= j < |init| ==> init[j] == offers[j];
      if Below(last.1, best.cost) {
        RunMinLowest(e, init);
        var j := |offers| - 1;
        assert RunMin(e, offers) == Entry(offers[j].1, Some(offers[j].0));
      } else {
        RunMinFirst(e, init);
      }
    }
  }

  /** The neighbour loop changes the entry exactly when some offer is below its cost. */
  lemma RunMinChanged(e: Entry, offers: seq<(Name, Cost)>)
    ensures RunMin(e, offers) != e <==> exists j :: 0 <= j < |offers| && Below(offers[j].1, e.cost)
  {
    RunMinLowest(e, offers);
    RunMinFirst(e, offers);
  }

  /**
   * One node's step on its row `row`, reading the other costs from `t`: the
   * entry for the node itself is skipped, every other entry becomes the
   * running minimum over the neighbours.
   */
  ghost function NodeStep(topo: Topology, t: Tables, n: Name, row: Table): (r: Table)
    requires n in topo.links
  {
    map d | d in row :: if d == n then row[d] else RunMin(row[d], Offers(topo, t, n, d))
  }

  /** One iteration of the simulation: every node steps on its own row of the snapshot `t`. */
  ghost function SimRound(topo: Topology, t: Tables): Tables
    requires Closed(topo)
  {
    map n | n in topo.nodes :: NodeStep(topo, t, n, if n in t then t[n] else map[])
  }

  /** An entry of an iteration, for tables of full shape. */
  lemma SimRoundAt(topo: Topology, t: Tables, n: Name, d: Name)
    requires Closed(topo) && Shaped(topo, t) && n in t && d in t[n]
    ensures n in SimRound(topo, t) && d in SimRound(topo, t)[n]
    ensures SimRound(topo, t)[n][d] == if d == n then t[n][d] else RunMin(t[n][d], Offers(topo, t, n, d))
  {
  }

  /** A row of an iteration is the node's step on its own row. */
  lemma SimRoundRow(topo: Topology, t: Tables, n: Name)
    requires Closed(topo) && n in topo.nodes && n in t
    ensures n in SimRound(topo, t) && SimRound(topo, t)[n] == NodeStep(topo, t, n, t[n])
  {
  }

  /** A step keeps the destinations of the row. */
  lemma NodeStepKeys(topo: Topology, t: Tables, n: Name, row: Table)
    requires n in topo.links
    ensures NodeStep(topo, t, n, row).Keys == row.Keys
  {
  }

  /*
   * What an iteration keeps.
   */

  /** An iteration has an entry for every node and destination. */
  lemma SimRoundShaped(topo: Topology, t: Tables)
    requires Closed(topo) && Shaped(topo, t)
    ensures Shaped(topo, SimRound(topo, t))
  {
    var t': Tables := SimRound(topo, t);
    assert t'.Keys == NodeSet(topo);
    forall n | n in t' ensures t'[n].Keys == NodeSet(topo) {
      SimRoundRow(topo, t, n);
      NodeStepKeys(topo, t, n, t[n]);
    }
  }

  /** An iteration keeps the shape and only lowers costs. */
  lemma SimRoundImproves(topo: Topology, t: Tables)
    requires Closed(topo) && Shaped(topo, t)
    ensures Improved(topo, t, SimRound(topo, t))
  {
    SimRoundShaped(topo, t);
    var t': Tables := SimRound(topo, t);
    forall n: Name, d: Name | n in t && d in t[n] && n in t' && d in t'[n]
      ensures t'[n][d] == t[n][d] || Below(t'[n][d].cost, t[n][d].cost)
    {
      SimRoundAt(topo, t, n, d);
    }
  }

  /** The entry for the node itself is skipped, so it keeps cost 0. */
  lemma SimRoundSelfZero(topo: Topology, t: Tables)
    requires Closed(topo) && Shaped(topo, t) && SelfZero(t)
    ensures SelfZero(SimRound(topo, t))
  {
    var t': Tables := SimRound(topo, t);
    forall n | n in t' ensures n in t'[n] && t'[n][n] == Entry(Fin(0), Some(n)) {
      SimRoundAt(topo, t, n, n);
    }
  }

  /** A changed entry's next hop is the neighbour whose offer won. */
  lemma StepEntryHop(topo: Topology, t: Tables, n: Name, d: Name, e: Entry)
    requires n in topo.links && d != n && HopOk(topo, n, d, e)
    ensures HopOk(topo, n, d, RunMin(e, Offers(topo, t, n, d)))
  {
    var offers := Offers(topo, t, n, d);
    RunMinFirst(e, offers);
    if RunMin(e, offers) != e {
      var j :| 0 <= j < |offers| && RunMin(e, offers) == Entry(offers[j].1, Some(offers[j].0));
      assert topo.links[n][j].to == offers[j].0;
    }
  }

  /** An iteration keeps every next hop a neighbour, present exactly for finite costs. */
  lemma SimRoundHops(topo: Topology, t: Tables)
    requires Closed(topo) && Shaped(topo, t) && Hops(topo, t)
    ensures Hops(topo, SimRound(topo, t))
  {
    var t': Tables := SimRound(topo, t);
    forall n: Name, d: Name | n in t' && d in t'[n] ensures HopOk(topo, n, d, t'[n][d]) {
      SimRoundAt(topo, t, n, d);
      if d != n {
        StepEntryHop(topo, t, n, d, t[n][d]);
      }
    }
  }

  /** A changed entry costs the link to the winning neighbour plus a walk from it: a walk one link longer. */
  lemma StepEntryWalk(topo: Topology, t: Tables, n: Name, d: Name, e: Entry)
    requires DistinctLinks(topo) && n in topo.links && Realized(topo, t) && Walked(topo, n, d, e.cost)
    ensures Walked(topo, n, d, RunMin(e, Offers(topo, t, n, d)).cost)
  {
    var offers := Offers(topo, t, n, d);
    RunMinFirst(e, offers);
    if RunMin(e, offers) != e {
      var j :| 0 <= j < |offers| && RunMin(e, offers) == Entry(offers[j].1, Some(offers[j].0));
      var nb := topo.links[n][j].to;
      RealizedAt(topo, t, nb, d);
      var w :| IsWalk(topo, w, nb, d) && WalkCost(topo, w) == At(t, nb, d).value;
      LinkThenWalk(topo, n, j, w, d);
      assert IsWalk(topo, [n] + w, n, d) && WalkCost(topo, [n] + w) == offers[j].1.value;
    }
  }

  /** Realized in terms of At. */
  lemma RealizedAt(topo: Topology, t: Tables, n: Name, d: Name)
    requires Realized(topo, t)
    ensures Walked(topo, n, d, At(t, n, d))
  {
    if n in t && d in t[n] {
      assert Walked(topo, n, d, t[n][d].cost);
    }
  }

  /** An iteration keeps every finite cost the cost of a walk. */
  lemma SimRoundRealized(topo: Topology, t: Tables)
    requires Closed(topo) && DistinctLinks(topo) && Shaped(topo, t) && Realized(topo, t)
    ensures Realized(topo, SimRound(topo, t))
  {
    var t': Tables := SimRound(topo, t);
    forall n: Name, d: Name | n in t' && d in t'[n] ensures Walked(topo, n, d, t'[n][d].cost) {
      SimRoundAt(topo, t, n, d);
      if d != n {
        StepEntryWalk(topo, t, n, d, t[n][d]);
      }
    }
  }

  /** No neighbour's offer is below any entry for another destination. */
  ghost predicate Unbeaten(topo: Topology, t: Tables)
  {
    forall n, d :: n in t && n in topo.links && d in t[n] && d != n ==> RunMin(t[n][d], Offers(topo, t, n, d)) == t[n][d]
  }

  /** When an iteration changes nothing, no offer beats any entry. */
  lemma FixedUnbeaten(topo: Topology, t: Tables)
    requires Closed(topo) && Shaped(topo, t) && SimRound(topo, t) == t
    ensures Unbeaten(topo, t)
  {
    forall n, d | n in t && n in topo.links && d in t[n] && d != n
      ensures RunMin(t[n][d], Offers(topo, t, n, d)) == t[n][d]
    {
      SimRoundAt(topo, t, n, d);
    }
  }

  /**
   * When an iteration changes nothing, no offer is below any entry: that is
   * the Bellman-Ford condition, with no bound on the entries for neighbours
   * needed, since the offers use the link costs.
   */
  lemma FixedPointSettled(topo: Topology, t: Tables)
    requires Closed(topo) && Shaped(topo, t) && SelfZero(t) && SimRound(topo, t) == t
    ensures Settled(topo, t)
  {
    FixedUnbeaten(topo, t);
    forall n, j, d | n in topo.links && 0 <= j < |topo.links[n]|
      ensures AtMost(At(t, n, d), Plus(Fin(topo.links[n][j].cost), At(t, topo.links[n][j].to, d)))
    {
      FixedEntry(topo, t, n, j, d);
    }
  }

  lemma FixedEntry(topo: Topology, t: Tables, n: Name, j: nat, d: Name)
    requires Closed(topo) && Shaped(topo, t) && SelfZero(t) && Unbeaten(topo, t)
    requires n in topo.links && j < |topo.links[n]|
    ensures AtMost(At(t, n, d), Plus(Fin(topo.links[n][j].cost), At(t, topo.links[n][j].to, d)))
  {
    if d == n {
      assert t[n][n].cost == Fin(0);
    } else if d in t[n] {
      FixedLink(topo, t, n, j, d);
    }
  }

  /** An entry the neighbour loop leaves as it is costs no more than any offer. */
  lemma FixedLink(topo: Topology, t: Tables, n: Name, j: nat, d: Name)
    requires n in topo.links && j < |topo.links[n]| && n in t && d in t[n]
    requires RunMin(t[n][d], Offers(topo, t, n, d)) == t[n][d]
    ensures AtMost(At(t, n, d), Plus(Fin(topo.links[n][j].cost), At(t, topo.links[n][j].to, d)))
  {
    var offers := Offers(topo, t, n, d);
    RunMinLowest(t[n][d], offers);
    assert offers[j].1 == Plus(Fin(topo.links[n][j].cost), At(t, topo.links[n][j].to, d));
  }

  /*
   * The nodes.
   */

  /** The tables of all the nodes, by name: what `copy.deepcopy` of each table takes. */
  function TablesOf(nodes: map<Name, Node>): Tables
    reads nodes.Values
  {
    map n | n in nodes :: nodes[n].routingTable
  }

  /** Every node is stored under its own name, so different names hold different objects. */
  ghost predicate Named(nodes: map<Name, Node>)
  {
    forall x :: x in nodes ==> nodes[x].name == x
  }

  /** A router with its routing table: destination to (cost, next hop). */
  class Node {
    const name: Name
    var routingTable: Table

    constructor (name: Name)
      ensures this.name == name && routingTable == map[]
    {
      this.name := name;
      routingTable := map[];
    }

    /**
     * `initialize_table`: one entry per node of the topology, in the
     * topology's order: cost 0 to itself, the link cost to a neighbour,
     * `math.inf` and no next hop otherwise. Entries for other names stay.
     */
    method InitializeTable(topo: Topology)
      requires name in topo.links
      modifies this
      ensures routingTable == old(routingTable) + InitialRow(topo, name)
    {
      for k := 0 to |topo.nodes|
        invariant forall d :: d in routingTable <==> d in old(routingTable) || d in topo.nodes[..k]
        invariant forall d :: d in routingTable ==>
          routingTable[d] == if d in topo.nodes[..k] then InitialEntry(topo, name, d) else old(routingTable)[d]
      {
        var dest := topo.nodes[k];
        if dest == name {
          routingTable := routingTable[dest := Entry(Fin(0), Some(name))];
        } else {
          match LinkTo(topo.links[name], dest)
          case Some(c) =>
            routingTable := routingTable[dest := Entry(Fin(c), Some(dest))];
          case None =>
            routingTable := routingTable[dest := Entry(Inf, None)];
        }
        PrefixStep(topo.nodes, k);
      }
      assert topo.nodes[..|topo.nodes|] == topo.nodes;
      SameMap(routingTable, old(routingTable) + InitialRow(topo, name));
    }

    /**
     * The neighbour loop of `update_table` for `dest`, reading each
     * neighbour's table as it is now; `t` holds the same costs.
     */
    method BestRoute(nodes: map<Name, Node>, topo: Topology, dest: Name, ghost t: Tables) returns (best: Entry, improved: bool)
      requires name in topo.links && dest in routingTable
      requires forall j :: 0 <= j < |topo.links[name]| ==>
        topo.links[name][j].to in nodes && dest in nodes[topo.links[name][j].to].routingTable
        && nodes[topo.links[name][j].to].routingTable[dest].cost == At(t, topo.links[name][j].to, dest)
      ensures best == RunMin(routingTable[dest], Offers(topo, t, name, dest))
      ensures improved <==> best != routingTable[dest]
    {
      best := routingTable[dest];
      improved := false;
      ghost var offers := Offers(topo, t, name, dest);
      for j := 0 to |topo.links[name]|
        invariant best == RunMin(routingTable[dest], offers[..j])
        invariant improved <==> best != routingTable[dest]
      {
        var neighbor := topo.links[name][j].to;
        var costToNeighbor := topo.links[name][j].cost;
        var potential := Plus(Fin(costToNeighbor), nodes[neighbor].routingTable[dest].cost);
        assert offers[..j + 1][..j] == offers[..j];
        if Below(potential, best.cost) {
          best := Entry(potential, Some(neighbor));
          improved := true;
        }
      }
      assert offers[..|offers|] == offers;
    }

    /**
     * `update_table`: every entry but the node's own becomes the running
     * minimum over the neighbours of the link cost plus the neighbour's
     * current cost; the result says whether any entry changed. The node's
     * own table may be among the neighbours' (a link to itself): an entry is
     * read before it is written, so every entry is computed from the tables
     * as they were at the call, whatever the order of the destinations.
     */
    method UpdateTable(nodes: map<Name, Node>, topo: Topology) returns (updated: bool)
      requires name in topo.links
      requires forall j :: 0 <= j < |topo.links[name]| ==> topo.links[name][j].to in nodes
      requires forall j, d :: 0 <= j < |topo.links[name]| && d in routingTable ==> d in nodes[topo.links[name][j].to].routingTable
      modifies this
      ensures routingTable == NodeStep(topo, old(TablesOf(nodes)), name, old(routingTable))
      ensures updated <==> routingTable != old(routingTable)
    {
      ghost var t := TablesOf(nodes);
      ghost var row := routingTable;
      updated := false;
      var todo := routingTable.Keys;
      while todo != {}
        invariant todo <= row.Keys && routingTable.Keys == row.Keys
        invariant forall d :: d in row ==> routingTable[d] == if d in todo then row[d] else NodeStep(topo, t, name, row)[d]
        invariant updated <==> routingTable != row
        decreases |todo|
      {
        var dest :| dest in todo;
        todo := todo - {dest};
        if dest == name {
          continue;
        }
        forall j | 0 <= j < |topo.links[name]|
          ensures nodes[topo.links[name][j].to].routingTable[dest].cost == At(t, topo.links[name][j].to, dest)
        {
        }
        var best, improved := BestRoute(nodes, topo, dest, t);
        UpdateDiffers(routingTable, row, dest, best);
        routingTable := routingTable[dest := best];
        updated := updated || improved;
      }
      SameMap(routingTable, NodeStep(topo, t, name, row));
    }
  }

  /*
   * The simulation.
   */

  /** `{name: Node(name) for name in topology}`. */
  method CreateNodes(topo: Topology) returns (nodes: map<Name, Node>)
    ensures fresh(nodes.Values) && Named(nodes) && nodes.Keys == NodeSet(topo)
    ensures TablesOf(nodes) == map x | x in topo.nodes :: map[]
  {
    nodes := map[];
    for i := 0 to |topo.nodes|
      invariant fresh(nodes.Values) && Named(nodes)
      invariant forall x :: x in nodes <==> x in topo.nodes[..i]
      invariant forall x :: x in nodes ==> nodes[x].routingTable == map[]
    {
      var node := new Node(topo.nodes[i]);
      ghost var older := nodes.Values;
      nodes := nodes[topo.nodes[i] := node];
      assert nodes.Values <= older + {node};
      PrefixStep(topo.nodes, i);
    }
    assert topo.nodes[..|topo.nodes|] == topo.nodes;
    SameMap(TablesOf(nodes), map x | x in topo.nodes :: map[]);
  }

  /** The table of each node, read through `TablesOf`. */
  lemma TablesOfAt(nodes: map<Name, Node>)
    ensures TablesOf(nodes).Keys == nodes.Keys
    ensures forall x :: x in nodes ==> nodes[x].routingTable == TablesOf(nodes)[x]
  {
  }

  /** Tables that differ from `before` only in `node`'s row are `before` with that row replaced. */
  lemma OnlyNodeChanged(nodes: map<Name, Node>, node: Node, before: Tables)
    requires node.name in nodes && before.Keys == nodes.Keys
    requires forall x :: x in nodes && x != node.name ==> nodes[x].routingTable == before[x]
    requires nodes[node.name] == node
    ensures TablesOf(nodes) == before[node.name := node.routingTable]
  {
    SameMap(TablesOf(nodes), before[node.name := node.routingTable]);
  }

  /** The tables after the first `i` nodes are initialized. */
  ghost function InitialPrefix(topo: Topology, i: nat): Tables
    requires Closed(topo) && i <= |topo.nodes|
  {
    map x | x in topo.nodes :: if x in topo.nodes[..i] then InitialRow(topo, x) else map[]
  }

  lemma InitialPrefixNext(topo: Topology, i: nat)
    requires Closed(topo) && DistinctNodes(topo) && i < |topo.nodes|
    ensures InitialPrefix(topo, i)[topo.nodes[i]] == map[]
    ensures InitialPrefix(topo, i + 1) == InitialPrefix(topo, i)[topo.nodes[i] := map[] + InitialRow(topo, topo.nodes[i])]
  {
    var n := topo.nodes[i];
    PrefixStep(topo.nodes, i);
    assert n !in topo.nodes[..i];
    assert map[] + InitialRow(topo, n) == InitialRow(topo, n);
    SameMap(InitialPrefix(topo, i + 1), InitialPrefix(topo, i)[n := InitialRow(topo, n)]);
  }

  lemma InitialPrefixEnds(topo: Topology)
    requires Closed(topo)
    ensures InitialPrefix(topo, 0) == map x | x in topo.nodes :: map[]
    ensures InitialPrefix(topo, |topo.nodes|) == InitialTables(topo)
  {
    assert topo.nodes[..|topo.nodes|] == topo.nodes;
    SameMap(InitialPrefix(topo, |topo.nodes|), InitialTables(topo));
  }

  /** `node.initialize_table(topology)` for every node: the nodes then hold the initial tables. */
  method InitializeNodes(topo: Topology, nodes: map<Name, Node>)
    requires Closed(topo) && DistinctNodes(topo) && Named(nodes) && nodes.Keys == NodeSet(topo)
    requires TablesOf(nodes) == map x | x in topo.nodes :: map[]
    modifies nodes.Values
    ensures TablesOf(nodes) == InitialTables(topo)
  {
    InitialPrefixEnds(topo);
    for i := 0 to |topo.nodes|
      invariant TablesOf(nodes) == InitialPrefix(topo, i)
    {
      InitializeNode(topo, nodes, i);
    }
  }

  /** The loop body: `node.initialize_table(topology)` for the `i`th node. */
  method InitializeNode(topo: Topology, nodes: map<Name, Node>, i: nat)
    requires Closed(topo) && DistinctNodes(topo) && Named(nodes) && nodes.Keys == NodeSet(topo) && i < |topo.nodes|
    requires TablesOf(nodes) == InitialPrefix(topo, i)
    modifies nodes[topo.nodes[i]]
    ensures TablesOf(nodes) == InitialPrefix(topo, i + 1)
  {
    var node := nodes[topo.nodes[i]];
    InitialPrefixNext(topo, i);
    ghost var before := TablesOf(nodes);
    node.InitializeTable(topo);
    OnlyNodeChanged(nodes, node, before);
  }

  /** The neighbour loop of the simulation for one entry, reading the snapshot. */
  method BestOffer(topo: Topology, snapshot: Tables, name: Name, dest: Name) returns (best: Entry, improved: bool)
    requires name in topo.links && name in snapshot && dest in snapshot[name]
    requires forall j :: 0 <= j < |topo.links[name]| ==>
      topo.links[name][j].to in snapshot && dest in snapshot[topo.links[name][j].to]
    ensures best == RunMin(snapshot[name][dest], Offers(topo, snapshot, name, dest))
    ensures improved <==> best != snapshot[name][dest]
  {
    best := snapshot[name][dest];
    improved := false;
    ghost var offers := Offers(topo, snapshot, name, dest);
    for j := 0 to |topo.links[name]|
      invariant best == RunMin(snapshot[name][dest], offers[..j])
      invariant improved <==> best != snapshot[name][dest]
    {
      var neighbor := topo.links[name][j].to;
      var costToNeighbor := topo.links[name][j].cost;
      var neighborCost := snapshot[neighbor][dest].cost;
      var potential := Plus(Fin(costToNeighbor), neighborCost);
      assert offers[..j + 1][..j] == offers[..j];
      if Below(potential, best.cost) {
        best := Entry(potential, Some(neighbor));
        improved := true;
      }
    }
    assert offers[..|offers|] == offers;
  }

  /** In tables of full shape every neighbour has an entry for every destination. */
  lemma NeighbourEntries(topo: Topology, t: Tables, n: Name, d: Name)
    requires Closed(topo) && Shaped(topo, t) && n in t && d in t[n]
    ensures n in topo.links
    ensures forall j :: 0 <= j < |topo.links[n]| ==> topo.links[n][j].to in t && d in t[topo.links[n][j].to]
  {
  }

  /** A node's row after the destinations before the `k`th are done. */
  ghost function StepPrefix(topo: Topology, t: Tables, n: Name, row: Table, k: nat): Table
    requires n in topo.links && k <= |topo.nodes|
  {
    map d | d in row :: if d in topo.nodes[..k] then NodeStep(topo, t, n, row)[d] else row[d]
  }

  lemma StepPrefixEnds(topo: Topology, t: Tables, n: Name, row: Table)
    requires n in topo.links && forall d :: d in row ==> d in topo.nodes
    ensures StepPrefix(topo, t, n, row, 0) == row
    ensures StepPrefix(topo, t, n, row, |topo.nodes|) == NodeStep(topo, t, n, row)
  {
    assert topo.nodes[..|topo.nodes|] == topo.nodes;
    SameMap(StepPrefix(topo, t, n, row, 0), row);
    SameMap(StepPrefix(topo, t, n, row, |topo.nodes|), NodeStep(topo, t, n, row));
  }

  lemma StepPrefixNext(topo: Topology, t: Tables, n: Name, row: Table, k: nat)
    requires DistinctNodes(topo) && n in topo.links && k < |topo.nodes| && topo.nodes[k] in row
    ensures StepPrefix(topo, t, n, row, k)[topo.nodes[k]] == row[topo.nodes[k]]
    ensures topo.nodes[k] == n ==> StepPrefix(topo, t, n, row, k + 1) == StepPrefix(topo, t, n, row, k)
    ensures topo.nodes[k] != n ==>
      StepPrefix(topo, t, n, row, k + 1) == StepPrefix(topo, t, n, row, k)[topo.nodes[k] := RunMin(row[topo.nodes[k]], Offers(topo, t, n, topo.nodes[k]))]
  {
    var d := topo.nodes[k];
    PrefixStep(topo.nodes, k);
    assert d !in topo.nodes[..k];
    var a, b := StepPrefix(topo, t, n, row, k + 1), StepPrefix(topo, t, n, row, k);
    SameMap(a, b[d := NodeStep(topo, t, n, row)[d]]);
    if d == n {
      UpdateSame(b, d);
    }
  }

  /** One node's part of an iteration: every destination but itself, in the order of its table. */
  method SimulateNode(topo: Topology, snapshot: Tables, node: Node, anyUpdate: bool) returns (anyUpdate': bool)
    requires Closed(topo) && DistinctNodes(topo) && Shaped(topo, snapshot)
    requires node.name in snapshot && node.routingTable == snapshot[node.name]
    modifies node
    ensures node.routingTable == NodeStep(topo, snapshot, node.name, snapshot[node.name])
    ensures anyUpdate' <==> anyUpdate || node.routingTable != snapshot[node.name]
  {
    ghost var row := snapshot[node.name];
    StepPrefixEnds(topo, snapshot, node.name, row);
    anyUpdate' := anyUpdate;
    for k := 0 to |topo.nodes|
      invariant node.routingTable == StepPrefix(topo, snapshot, node.name, row, k)
      invariant anyUpdate' <==> anyUpdate || node.routingTable != row
    {
      var dest := topo.nodes[k];
      StepPrefixNext(topo, snapshot, node.name, row, k);
      if dest == node.name {
        continue;
      }
      NeighbourEntries(topo, snapshot, node.name, dest);
      var best, improved := BestOffer(topo, snapshot, node.name, dest);
      UpdateDiffers(node.routingTable, row, dest, best);
      node.routingTable := node.routingTable[dest := best];
      anyUpdate' := anyUpdate' || improved;
    }
  }

  /** The tables after the first `i` nodes have done their part of an iteration on the snapshot `t`. */
  ghost function SimPartial(topo: Topology, t: Tables, i: nat): Tables
    requires Closed(topo) && Shaped(topo, t) && i <= |topo.nodes|
  {
    map n | n in topo.nodes :: if n in topo.nodes[..i] then SimRound(topo, t)[n] else t[n]
  }

  lemma SimPartialEnds(topo: Topology, t: Tables)
    requires Closed(topo) && Shaped(topo, t)
    ensures SimPartial(topo, t, 0) == t
    ensures SimPartial(topo, t, |topo.nodes|) == SimRound(topo, t)
  {
    SameMap(SimPartial(topo, t, 0), t);
    assert topo.nodes[..|topo.nodes|] == topo.nodes;
    SameMap(SimPartial(topo, t, |topo.nodes|), SimRound(topo, t));
  }

  lemma SimPartialNext(topo: Topology, t: Tables, i: nat)
    requires Closed(topo) && DistinctNodes(topo) && Shaped(topo, t) && i < |topo.nodes|
    ensures topo.nodes[i] in t && SimPartial(topo, t, i)[topo.nodes[i]] == t[topo.nodes[i]]
    ensures SimPartial(topo, t, i + 1) == SimPartial(topo, t, i)[topo.nodes[i] := SimRound(topo, t)[topo.nodes[i]]]
  {
    var n := topo.nodes[i];
    PrefixStep(topo.nodes, i);
    assert n !in topo.nodes[..i];
    SimPartialNextKeys(topo, t, i);
    var a, b := SimPartial(topo, t, i + 1), SimPartial(topo, t, i)[n := SimRound(topo, t)[n]];
    forall m | m in a ensures a[m] == b[m] {
      SimPartialNextAt(topo, t, i, m);
    }
    SameMap(a, b);
  }

  lemma SimPartialNextKeys(topo: Topology, t: Tables, i: nat)
    requires Closed(topo) && Shaped(topo, t) && i < |topo.nodes|
    ensures SimPartial(topo, t, i + 1).Keys == SimPartial(topo, t, i)[topo.nodes[i] := SimRound(topo, t)[topo.nodes[i]]].Keys
  {
  }

  lemma SimPartialNextAt(topo: Topology, t: Tables, i: nat, m: Name)
    requires Closed(topo) && Shaped(topo, t) && i < |topo.nodes| && m in topo.nodes
    ensures var n := topo.nodes[i];
      SimPartial(topo, t, i + 1)[m] == SimPartial(topo, t, i)[n := SimRound(topo, t)[n]][m]
  {
    PrefixStep(topo.nodes, i);
    SimPartialAt(topo, t, i + 1, m);
    SimPartialAt(topo, t, i, m);
  }

  lemma SimPartialAt(topo: Topology, t: Tables, i: nat, m: Name)
    requires Closed(topo) && Shaped(topo, t) && i <= |topo.nodes| && m in topo.nodes
    ensures SimPartial(topo, t, i)[m] == if m in topo.nodes[..i] then SimRound(topo, t)[m] else t[m]
  {
  }

  /** Doing node `i`'s part changes the tables exactly when they had changed already or node `i`'s row changes. */
  lemma SimPartialDiffers(topo: Topology, t: Tables, i: nat)
    requires Closed(topo) && DistinctNodes(topo) && Shaped(topo, t) && i < |topo.nodes|
    ensures SimPartial(topo, t, i + 1) != t <==>
      SimPartial(topo, t, i) != t || SimRound(topo, t)[topo.nodes[i]] != t[topo.nodes[i]]
  {
    var n := topo.nodes[i];
    SimPartialNext(topo, t, i);
    UpdateDiffers(SimPartial(topo, t, i), t, n, SimRound(topo, t)[n]);
  }

  /** The loop body for node `name`: its part of the iteration on the snapshot, and the flag. */
  method SimulateNext(topo: Topology, snapshot: Tables, nodes: map<Name, Node>, name: Name, anyUpdate: bool, ghost current: Tables)
    returns (anyUpdate': bool)
    requires Closed(topo) && DistinctNodes(topo) && Shaped(topo, snapshot) && Named(nodes)
    requires name in nodes && name in snapshot
    requires current.Keys == nodes.Keys && current[name] == snapshot[name]
    requires forall x :: x in nodes ==> nodes[x].routingTable == current[x]
    modifies nodes[name]
    ensures TablesOf(nodes) == current[name := NodeStep(topo, snapshot, name, snapshot[name])]
    ensures anyUpdate' <==> anyUpdate || NodeStep(topo, snapshot, name, snapshot[name]) != snapshot[name]
  {
    var node := nodes[name];
    assert forall x :: x in nodes && x != name ==> nodes[x] != node;
    anyUpdate' := SimulateNode(topo, snapshot, node, anyUpdate);
    assert forall x :: x in nodes && x != name ==> nodes[x].routingTable == current[x];
    OnlyNodeChanged(nodes, node, current);
  }

  /**
   * One iteration of the `while True` loop: the snapshot, then every node
   * in turn. The flag says whether any table changed.
   */
  method SimulateRound(topo: Topology, nodes: map<Name, Node>) returns (anyUpdate: bool)
    requires Closed(topo) && DistinctNodes(topo) && Named(nodes) && nodes.Keys == NodeSet(topo)
    requires Shaped(topo, TablesOf(nodes))
    modifies nodes.Values
    ensures TablesOf(nodes) == SimRound(topo, old(TablesOf(nodes)))
    ensures anyUpdate <==> TablesOf(nodes) != old(TablesOf(nodes))
  {
    var snapshot := TablesOf(nodes);
    SimPartialEnds(topo, snapshot);
    anyUpdate := false;
    for i := 0 to |topo.nodes|
      invariant TablesOf(nodes) == SimPartial(topo, snapshot, i)
      invariant anyUpdate <==> SimPartial(topo, snapshot, i) != snapshot
    {
      SimPartialDiffers(topo, snapshot, i);
      SimPartialNext(topo, snapshot, i);
      SimRoundRow(topo, snapshot, topo.nodes[i]);
      TablesOfAt(nodes);
      anyUpdate := SimulateNext(topo, snapshot, nodes, topo.nodes[i], anyUpdate, SimPartial(topo, snapshot, i));
    }
  }

  /**
   * `distance_vector_simulation`: iterations until one changes no table.
   * It stops, and the final tables hold, for every node and destination,
   * the cost of a cheapest walk, with `math.inf` where there is none.
   */
  method DistanceVectorSimulation(topo: Topology) returns (tables: Tables)
    requires Valid(topo)
    ensures Shaped(topo, tables) && SimRound(topo, tables) == tables
    ensures forall n, d :: n in tables && d in tables[n] ==> Shortest(topo, n, d, tables[n][d].cost)
  {
    var nodes := CreateNodes(topo);
    InitializeNodes(topo, nodes);
    InitialShape(topo);
    InitialHops(topo);
    InitialRealized(topo);
    while true
      invariant fresh(nodes.Values) && Named(nodes) && nodes.Keys == NodeSet(topo)
      invariant Shaped(topo, TablesOf(nodes)) && SelfZero(TablesOf(nodes))
      invariant Hops(topo, TablesOf(nodes)) && Realized(topo, TablesOf(nodes))
      decreases Infs(Costs(TablesOf(nodes), topo.nodes, topo.nodes)), Fins(Costs(TablesOf(nodes), topo.nodes, topo.nodes))
    {
      ghost var before := TablesOf(nodes);
      var anyUpdate := SimulateRound(topo, nodes);
      SimRoundImproves(topo, before);
      SimRoundSelfZero(topo, before);
      SimRoundHops(topo, before);
      SimRoundRealized(topo, before);
      if !anyUpdate {
        break;
      }
      ImprovedShrinks(topo, before, TablesOf(nodes));
    }
    tables := TablesOf(nodes);
    FixedPointSettled(topo, tables);
    SettledIsShortest(topo, tables);
  }
}
