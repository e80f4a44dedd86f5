/**
 * What the two distance-vector simulations (assignment3/Q3/network.py and
 * assignment3/Q3/object_net.py) share: the topology dictionary, costs with
 * `math.inf`, routing-table entries, the initial tables, walks along the
 * links, and the measure that shrinks whenever a round lowers an entry.
 */
module Routing {
  import opened Results

  type Name = string

  /** A path cost: `math.inf`, or a finite sum of link costs. */
  datatype Cost = Inf | Fin(value: nat)

  /** `+` on costs: anything plus `math.inf` is `math.inf`. */
  function Plus(a: Cost, b: Cost): Cost
  {
    if a.Fin? && b.Fin? then Fin(a.value + b.value) else Inf
  }

  /** `<` on costs: `math.inf` is below nothing, and every finite cost is below it. */
  predicate Below(a: Cost, b: Cost)
  {
    a.Fin? && (b.Inf? || a.value < b.value)
  }

  /** `<=` on costs. */
  predicate AtMost(a: Cost, b: Cost)
  {
    !Below(b, a)
  }

  /** A routing-table value `(cost, next_hop)`; the next hop is None for an unreachable destination. */
  datatype Entry = Entry(cost: Cost, nextHop: Option<Name>)

  /** One node's table, destination to entry. */
  type Table = map<Name, Entry>

  /** The tables of all nodes, node to table. */
  type Tables = map<Name, Table>

  /** One item of `topology[node]`: the neighbour and the cost of the link to it. */
  datatype Link = Link(to: Name, cost: nat)

  /** `topology`: the nodes in dictionary order, and the links of each node in dictionary order. */
  datatype Topology = Topology(nodes: seq<Name>, links: map<Name, seq<Link>>)

  /** No node twice: `topology` is a dictionary. */
  ghost predicate DistinctNodes(topo: Topology)
  {
    forall i, j :: 0 <= i < j < |topo.nodes| ==> topo.nodes[i] != topo.nodes[j]
  }

  /** A link list for every node, and every neighbour is itself a node, since both scripts look its table up by name. */
  ghost predicate Closed(topo: Topology)
  {
    (forall n :: n in topo.links <==> n in topo.nodes)
    && (forall n, j :: n in topo.links && 0 <= j < |topo.links[n]| ==> topo.links[n][j].to in topo.nodes)
  }

  /** No neighbour twice in a link list: `topology[node]` is a dictionary. */
  ghost predicate DistinctLinks(topo: Topology)
  {
    forall n, i, j :: n in topo.links && 0 <= i < j < |topo.links[n]| ==> topo.links[n][i].to != topo.links[n][j].to
  }

  /** A dictionary of dictionaries whose neighbours are all nodes. */
  ghost predicate Valid(topo: Topology)
  {
    DistinctNodes(topo) && Closed(topo) && DistinctLinks(topo)
  }

  /** `topology[node][dest]` when `dest in topology[node]`, otherwise None. */
  function LinkTo(links: seq<Link>, d: Name): (r: Option<nat>)
    ensures r.Some? <==> exists j :: 0 <= j < |links| && links[j].to == d
    ensures r.Some? ==> exists j :: 0 <= j < |links| && links[j] == Link(d, r.value)
  {
    if links == [] then None
    else if links[0].to == d then Some(links[0].cost)
    else
      var r := LinkTo(links[1..], d);
      assert forall j :: 1 <= j < |links| ==> links[j] == links[1..][j - 1];
      r
  }

  /** With no neighbour listed twice, each link's cost is what the lookup of its neighbour gives. */
  lemma {:induction false} LinkAt(links: seq<Link>, j: nat)
    requires j < |links|
    requires forall i, k :: 0 <= i < k < |links| ==> links[i].to != links[k].to
    ensures LinkTo(links, links[j].to) == Some(links[j].cost)
    decreases j
  {
    if j > 0 {
      LinkAt(links[1..], j - 1);
    }
  }

  /** The branches of `initialize_table`, which are those of the inner loop of `initialize_distance_tables`. */
  function InitialEntry(topo: Topology, n: Name, d: Name): Entry
    requires n in topo.links
  {
    if d == n then Entry(Fin(0), Some(n))
    else
      match LinkTo(topo.links[n], d)
      case Some(c) => Entry(Fin(c), Some(d))
      case None => Entry(Inf, None)
  }

  /** The initial table of one node: an entry for every destination of the topology. */
  function InitialRow(topo: Topology, n: Name): Table
    requires n in topo.links
  {
    map d | d in topo.nodes :: InitialEntry(topo, n, d)
  }

  /** The initial tables of all nodes. */
  function InitialTables(topo: Topology): Tables
    requires Closed(topo)
  {
    map n | n in topo.nodes :: InitialRow(topo, n)
  }

  /** The nodes of the topology, as a set. */
  ghost function NodeSet(topo: Topology): set<Name>
  {
    set n | n in topo.nodes
  }

  /** A table for every node, each with an entry for every node. */
  ghost predicate Shaped(topo: Topology, t: Tables)
  {
    t.Keys == NodeSet(topo) && forall n :: n in t ==> t[n].Keys == NodeSet(topo)
  }

  /** Each node reaches itself at cost 0 through itself. */
  ghost predicate SelfZero(t: Tables)
  {
    forall n :: n in t ==> n in t[n] && t[n][n] == Entry(Fin(0), Some(n))
  }

  /** For another destination, a next hop exactly when the cost is finite, and that hop a neighbour. */
  ghost predicate HopOk(topo: Topology, n: Name, d: Name, e: Entry)
  {
    d != n ==>
      (e.nextHop.Some? <==> e.cost.Fin?)
      && (e.nextHop.Some? ==> n in topo.links && LinkTo(topo.links[n], e.nextHop.value).Some?)
  }

  /** Every entry has a next hop as HopOk says. */
  ghost predicate Hops(topo: Topology, t: Tables)
  {
    forall n, d :: n in t && d in t[n] ==> HopOk(topo, n, d, t[n][d])
  }

  /** No entry for a neighbour costs more than the link to it. */
  ghost predicate LinkBound(topo: Topology, t: Tables)
  {
    forall n, j :: n in t && n in topo.links && 0 <= j < |topo.links[n]| ==>
      topo.links[n][j].to in t[n] && AtMost(t[n][topo.links[n][j].to].cost, Fin(topo.links[n][j].cost))
  }

  /** A walk from `from` to `to` along links of the topology. */
  ghost predicate IsWalk(topo: Topology, w: seq<Name>, from: Name, to: Name)
  {
    |w| >= 1 && w[0] == from && w[|w| - 1] == to
    && forall i :: 0 <= i < |w| - 1 ==> w[i] in topo.links && LinkTo(topo.links[w[i]], w[i + 1]).Some?
  }

  /** The sum of the link costs along a walk. */
  ghost function WalkCost(topo: Topology, w: seq<Name>): nat
  {
    if |w| < 2 || w[0] !in topo.links then 0
    else
      match LinkTo(topo.links[w[0]], w[1])
      case Some(c) => c + WalkCost(topo, w[1..])
      case None => WalkCost(topo, w[1..])
  }

  /** A finite cost is the cost of some walk from `n` to `d`. */
  ghost predicate Walked(topo: Topology, n: Name, d: Name, c: Cost)
  {
    c.Fin? ==> exists w :: IsWalk(topo, w, n, d) && WalkCost(topo, w) == c.value
  }

  /** Every finite cost in the tables is the cost of some walk to the destination. */
  ghost predicate Realized(topo: Topology, t: Tables)
  {
    forall n, d :: n in t && d in t[n] ==> Walked(topo, n, d, t[n][d].cost)
  }

  /** `c` is the cost of a cheapest walk from `n` to `d`, and `math.inf` when there is no walk. */
  ghost predicate Shortest(topo: Topology, n: Name, d: Name, c: Cost)
  {
    (forall w :: IsWalk(topo, w, n, d) ==> AtMost(c, Fin(WalkCost(topo, w))))
    && Walked(topo, n, d, c)
  }

  /** The cost of an entry, and `math.inf` for an entry the tables do not have. */
  ghost function At(t: Tables, n: Name, d: Name): Cost
  {
    if n in t && d in t[n] then t[n][d].cost else Inf
  }

  /** The entry, and an unreachable one for an entry the tables do not have. */
  ghost function EntryAt(t: Tables, n: Name, d: Name): (r: Entry)
    ensures r.cost == At(t, n, d)
  {
    if n in t && d in t[n] then t[n][d] else Entry(Inf, None)
  }

  /** No link offers a cheaper way to any destination: the Bellman-Ford condition. */
  ghost predicate Settled(topo: Topology, t: Tables)
  {
    forall n, j, d :: n in topo.links && 0 <= j < |topo.links[n]| ==>
      AtMost(At(t, n, d), Plus(Fin(topo.links[n][j].cost), At(t, topo.links[n][j].to, d)))
  }

  /** The initial tables have an entry for every node and destination, with cost 0 for the node itself. */
  lemma InitialShape(topo: Topology)
    requires Closed(topo)
    ensures Shaped(topo, InitialTables(topo)) && SelfZero(InitialTables(topo))
  {
  }

  /** In the initial tables only neighbours have a next hop. */
  lemma InitialHops(topo: Topology)
    requires Closed(topo)
    ensures Hops(topo, InitialTables(topo))
  {
    var t: Tables := InitialTables(topo);
    forall n: Name, d: Name | n in t && d in t[n] ensures HopOk(topo, n, d, t[n][d]) {
      assert t[n][d] == InitialEntry(topo, n, d);
    }
  }

  /** In the initial tables the entry for a neighbour is the link to it. */
  lemma InitialLinkBound(topo: Topology)
    requires Closed(topo) && DistinctLinks(topo)
    ensures LinkBound(topo, InitialTables(topo))
  {
    forall n: Name, j: nat | n in InitialTables(topo) && n in topo.links && 0 <= j < |topo.links[n]|
      ensures topo.links[n][j].to in InitialTables(topo)[n]
      ensures AtMost(InitialTables(topo)[n][topo.links[n][j].to].cost, Fin(topo.links[n][j].cost))
    {
      InitialLinkEntry(topo, n, j);
    }
  }

  lemma InitialLinkEntry(topo: Topology, n: Name, j: nat)
    requires Closed(topo) && DistinctLinks(topo) && n in topo.links && j < |topo.links[n]|
    ensures topo.links[n][j].to in InitialTables(topo)[n]
    ensures AtMost(InitialTables(topo)[n][topo.links[n][j].to].cost, Fin(topo.links[n][j].cost))
  {
    LinkAt(topo.links[n], j);
  }

  /** A finite initial entry is the cost of the walk of zero or one link it stands for. */
  lemma InitialEntryWalk(topo: Topology, n: Name, d: Name)
    requires n in topo.links
    ensures Walked(topo, n, d, InitialEntry(topo, n, d).cost)
  {
    if d == n {
      assert IsWalk(topo, [n], n, d) && WalkCost(topo, [n]) == 0;
    } else if LinkTo(topo.links[n], d).Some? {
      assert IsWalk(topo, [n, d], n, d);
      assert WalkCost(topo, [n, d][1..]) == 0;
    }
  }

  lemma InitialRealized(topo: Topology)
    requires Closed(topo)
    ensures Realized(topo, InitialTables(topo))
  {
    var t: Tables := InitialTables(topo);
    forall n: Name, d: Name | n in t && d in t[n] ensures Walked(topo, n, d, t[n][d].cost) {
      assert t[n][d] == InitialEntry(topo, n, d);
      InitialEntryWalk(topo, n, d);
    }
  }

  /** A walk of at least one link is its first link followed by a walk from that link's neighbour. */
  lemma WalkTail(topo: Topology, w: seq<Name>, n: Name, d: Name)
    requires IsWalk(topo, w, n, d) && |w| >= 2
    ensures IsWalk(topo, w[1..], w[1], d)
    ensures WalkCost(topo, w) == LinkTo(topo.links[n], w[1]).value + WalkCost(topo, w[1..])
  {
    var rest := w[1..];
    forall i | 0 <= i < |rest| - 1 ensures rest[i] in topo.links && LinkTo(topo.links[rest[i]], rest[i + 1]).Some? {
      assert rest[i] == w[i + 1] && rest[i + 1] == w[i + 2];
    }
  }

  /** A walk from `a` to `b` and one from `b` to `c` join into one from `a` to `c` costing the sum. */
  lemma WalkedJoin(topo: Topology, a: Name, b: Name, c: Name, x: Cost, y: Cost)
    requires Walked(topo, a, b, x) && Walked(topo, b, c, y)
    ensures Walked(topo, a, c, Plus(x, y))
  {
    if x.Fin? && y.Fin? {
      var w1 :| IsWalk(topo, w1, a, b) && WalkCost(topo, w1) == x.value;
      var w2 :| IsWalk(topo, w2, b, c) && WalkCost(topo, w2) == y.value;
      WalkJoin(topo, w1, w2, a, b, c);
      var w := w1 + w2[1..];
      assert Plus(x, y) == Fin(WalkCost(topo, w));
      assert IsWalk(topo, w, a, c);
    }
  }

  /** Two walks that meet make one walk, and their costs add up. */
  lemma {:induction false} WalkJoin(topo: Topology, w1: seq<Name>, w2: seq<Name>, a: Name, b: Name, c: Name)
    requires IsWalk(topo, w1, a, b) && IsWalk(topo, w2, b, c)
    ensures IsWalk(topo, w1 + w2[1..], a, c)
    ensures WalkCost(topo, w1 + w2[1..]) == WalkCost(topo, w1) + WalkCost(topo, w2)
    decreases |w1|
  {
    var w := w1 + w2[1..];
    if |w1| == 1 {
      assert w == w2;
    } else {
      WalkTail(topo, w1, a, b);
      WalkJoin(topo, w1[1..], w2, w1[1], b, c);
      assert w[1..] == w1[1..] + w2[1..];
      forall i | 0 <= i < |w| - 1 ensures w[i] in topo.links && LinkTo(topo.links[w[i]], w[i + 1]).Some? {
        if i > 0 {
          assert w[i] == w[1..][i - 1] && w[i + 1] == w[1..][i];
        }
      }
    }
  }

  /** A link followed by a walk from its neighbour is a walk, one link longer. */
  lemma LinkThenWalk(topo: Topology, n: Name, j: nat, w: seq<Name>, d: Name)
    requires DistinctLinks(topo) && n in topo.links && j < |topo.links[n]|
    requires IsWalk(topo, w, topo.links[n][j].to, d)
    ensures IsWalk(topo, [n] + w, n, d)
    ensures WalkCost(topo, [n] + w) == topo.links[n][j].cost + WalkCost(topo, w)
  {
    LinkAt(topo.links[n], j);
    assert ([n] + w)[1..] == w;
  }

  /** Settled tables cost no more than any walk: by induction along the walk, one link at a time. */
  lemma {:induction false} SettledBelowWalks(topo: Topology, t: Tables, w: seq<Name>, n: Name, d: Name)
    requires Closed(topo) && (forall m :: m in topo.nodes ==> m in t) && SelfZero(t) && Settled(topo, t)
    requires n in topo.nodes && IsWalk(topo, w, n, d)
    ensures AtMost(At(t, n, d), Fin(WalkCost(topo, w)))
    decreases |w|
  {
    if |w| >= 2 {
      var link := LinkTo(topo.links[n], w[1]);
      var j :| 0 <= j < |topo.links[n]| && topo.links[n][j] == Link(w[1], link.value);
      WalkTail(topo, w, n, d);
      SettledBelowWalks(topo, t, w[1..], w[1], d);
      PlusAtMost(At(t, n, d), link.value, At(t, w[1], d), WalkCost(topo, w[1..]));
    } else {
      assert d == n && n in t;
    }
  }

  lemma PlusAtMost(a: Cost, c: nat, b: Cost, r: nat)
    requires AtMost(a, Plus(Fin(c), b)) && AtMost(b, Fin(r))
    ensures AtMost(a, Fin(c + r))
  {
  }

  /**
   * Settled tables whose finite entries are walks hold, for every node and
   * destination, the cost of a cheapest walk, and `math.inf` exactly where
   * no walk exists.
   */
  lemma SettledIsShortest(topo: Topology, t: Tables)
    requires Closed(topo) && Shaped(topo, t) && SelfZero(t) && Settled(topo, t) && Realized(topo, t)
    ensures forall n, d :: n in t && d in t[n] ==> Shortest(topo, n, d, t[n][d].cost)
  {
    forall n, d | n in t && d in t[n] ensures Shortest(topo, n, d, t[n][d].cost) {
      forall w | IsWalk(topo, w, n, d) ensures AtMost(t[n][d].cost, Fin(WalkCost(topo, w))) {
        SettledBelowWalks(topo, t, w, n, d);
      }
    }
  }

  /*
   * The measure that ends both `while` loops: a round that changes a table
   * turns some `math.inf` into a finite cost, or lowers some finite cost and
   * raises none.
   */

  /** The costs of the entries, row by row, in the given orders. */
  ghost function Costs(t: Tables, ns: seq<Name>, ds: seq<Name>): seq<Cost>
    decreases |ns|
  {
    if ns == [] then []
    else seq(|ds|, j requires 0 <= j < |ds| => At(t, ns[0], ds[j])) + Costs(t, ns[1..], ds)
  }

  /** The number of `math.inf` costs. */
  ghost function Infs(cs: seq<Cost>): nat
  {
    if cs == [] then 0 else (if cs[0].Inf? then 1 else 0) + Infs(cs[1..])
  }

  /** The sum of the finite costs. */
  ghost function Fins(cs: seq<Cost>): nat
  {
    if cs == [] then 0 else (if cs[0].Fin? then cs[0].value else 0) + Fins(cs[1..])
  }

  /** The lexicographic order on (number of `math.inf` costs, sum of finite costs). */
  ghost predicate Smaller(xs: seq<Cost>, ys: seq<Cost>)
  {
    Infs(xs) < Infs(ys) || (Infs(xs) == Infs(ys) && Fins(xs) < Fins(ys))
  }

  /** Position by position, the same cost or a lower one. */
  ghost predicate NoWorse(xs: seq<Cost>, ys: seq<Cost>)
  {
    |xs| == |ys| && forall i :: 0 <= i < |xs| ==> xs[i] == ys[i] || Below(xs[i], ys[i])
  }

  lemma {:induction false} NoWorseMeasure(xs: seq<Cost>, ys: seq<Cost>)
    requires NoWorse(xs, ys)
    ensures Infs(xs) <= Infs(ys)
    ensures Infs(xs) == Infs(ys) ==> Fins(xs) <= Fins(ys)
    ensures (exists i :: 0 <= i < |xs| && Below(xs[i], ys[i])) ==> Smaller(xs, ys)
    decreases |xs|
  {
    if xs != [] {
      assert NoWorse(xs[1..], ys[1..]) by {
        forall i | 0 <= i < |xs| - 1 ensures xs[1..][i] == ys[1..][i] || Below(xs[1..][i], ys[1..][i]) {
          assert xs[1..][i] == xs[i + 1] && ys[1..][i] == ys[i + 1];
        }
      }
      NoWorseMeasure(xs[1..], ys[1..]);
      if exists i :: 0 <= i < |xs| && Below(xs[i], ys[i]) {
        var i :| 0 <= i < |xs| && Below(xs[i], ys[i]);
        if i > 0 {
          assert Below(xs[1..][i - 1], ys[1..][i - 1]);
        }
      }
    }
  }

  lemma {:induction false} CostsNoWorse(t: Tables, t': Tables, ns: seq<Name>, ds: seq<Name>, n: Name, d: Name)
    requires forall m, e :: At(t', m, e) == At(t, m, e) || Below(At(t', m, e), At(t, m, e))
    ensures NoWorse(Costs(t', ns, ds), Costs(t, ns, ds))
    ensures n in ns && d in ds && Below(At(t', n, d), At(t, n, d)) ==>
      exists i :: 0 <= i < |Costs(t, ns, ds)| && Below(Costs(t', ns, ds)[i], Costs(t, ns, ds)[i])
    decreases |ns|
  {
    if ns != [] {
      var row := seq(|ds|, j requires 0 <= j < |ds| => At(t, ns[0], ds[j]));
      var row' := seq(|ds|, j requires 0 <= j < |ds| => At(t', ns[0], ds[j]));
      CostsNoWorse(t, t', ns[1..], ds, n, d);
      var rest, rest' := Costs(t, ns[1..], ds), Costs(t', ns[1..], ds);
      assert Costs(t, ns, ds) == row + rest && Costs(t', ns, ds) == row' + rest';
      if n in ns && d in ds && Below(At(t', n, d), At(t, n, d)) {
        if n == ns[0] {
          var q :| 0 <= q < |ds| && ds[q] == d;
          assert Below((row' + rest')[q], (row + rest)[q]);
        } else {
          assert n in ns[1..];
          var i :| 0 <= i < |rest| && Below(rest'[i], rest[i]);
          assert Below((row' + rest')[|ds| + i], (row + rest)[|ds| + i]);
        }
      }
    }
  }

  /** Every entry kept or strictly cheaper: what one round of either script does. */
  ghost predicate Improved(topo: Topology, t: Tables, t': Tables)
  {
    Shaped(topo, t) && Shaped(topo, t')
    && forall n, d :: n in t && d in t[n] && n in t' && d in t'[n] ==> t'[n][d] == t[n][d] || Below(t'[n][d].cost, t[n][d].cost)
  }

  /** Tables of the same shape with the same entries are the same tables. */
  lemma SameEntries(topo: Topology, t: Tables, t': Tables)
    requires Shaped(topo, t) && Shaped(topo, t')
    requires forall n, d :: n in t && d in t[n] && n in t' && d in t'[n] ==> t'[n][d] == t[n][d]
    ensures t' == t
  {
    forall n | n in t ensures t'[n] == t[n] {
      SameMap(t'[n], t[n]);
    }
    SameMap(t', t);
  }

  lemma SameMap<K, V>(a: map<K, V>, b: map<K, V>)
    requires a.Keys == b.Keys && forall k :: k in a ==> a[k] == b[k]
    ensures a == b
  {
  }

  lemma PrefixStep(s: seq<Name>, k: nat)
    requires k < |s|
    ensures forall x :: x in s[..k + 1] <==> x in s[..k] || x == s[k]
  {
    assert s[..k + 1] == s[..k] + [s[k]];
  }

  /** Writing back a map's own value changes nothing. */
  lemma UpdateSame<K, V>(m: map<K, V>, k: K)
    requires k in m
    ensures m[k := m[k]] == m
  {
    SameMap(m[k := m[k]], m);
  }

  /** Writing `v` at a key where `m` still agrees with `s` makes the maps differ exactly when they differed already or `v` is new. */
  lemma UpdateDiffers<K, V>(m: map<K, V>, s: map<K, V>, k: K, v: V)
    requires k in m && k in s && m[k] == s[k]
    ensures (m[k := v] != s) <==> (m != s || v != s[k])
  {
    if v == s[k] {
      UpdateSame(m, k);
    } else {
      assert m[k := v][k] != s[k];
    }
  }

  /** A round that improves and changes the tables makes the measure smaller. */
  lemma ImprovedShrinks(topo: Topology, t: Tables, t': Tables)
    requires Improved(topo, t, t') && t' != t
    ensures Smaller(Costs(t', topo.nodes, topo.nodes), Costs(t, topo.nodes, topo.nodes))
  {
    if forall n, d :: n in t && d in t[n] && n in t' && d in t'[n] ==> t'[n][d] == t[n][d] {
      SameEntries(topo, t, t');
    }
    var n, d :| n in t && d in t[n] && n in t' && d in t'[n] && t'[n][d] != t[n][d];
    forall m, e ensures At(t', m, e) == At(t, m, e) || Below(At(t', m, e), At(t, m, e)) {
      if m in t && e in t[m] {
        assert m in t' && e in t'[m];
      } else {
        assert !(m in t' && e in t'[m]);
      }
    }
    CostsNoWorse(t, t', topo.nodes, topo.nodes, n, d);
    NoWorseMeasure(Costs(t', topo.nodes, topo.nodes), Costs(t, topo.nodes, topo.nodes));
  }
}
