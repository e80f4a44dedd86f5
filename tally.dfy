/**
 * Python's `defaultdict(int)` as the statistics scripts use it: `d[k] += w`
 * on a dictionary that remembers the order in which keys first arrived,
 * `len(d)`, and `max(d, key=d.get)`.
 */
module Tally {
  import opened Results

  /** A `defaultdict(int)`: its keys in insertion order and the value of each. */
  datatype Counter<K> = Counter(keys: seq<K>, values: map<K, nat>)

  ghost predicate Distinct<K(!new)>(ks: seq<K>)
  {
    forall i, j :: 0 <= i < j < |ks| ==> ks[i] != ks[j]
  }

  /** The key order lists each key of the dictionary exactly once. */
  ghost predicate Valid<K(!new)>(d: Counter<K>)
  {
    Distinct(d.keys) && forall k :: k in d.values <==> k in d.keys
  }

  /** `d[k]` on a defaultdict(int): 0 for a key never added. */
  function Get<K(==,!new)>(d: Counter<K>, k: K): nat
  {
    if k in d.values then d.values[k] else 0
  }

  /** `d[k] += w`: a new key goes to the end of the key order. */
  function Add<K(==,!new)>(d: Counter<K>, k: K, w: nat): (r: Counter<K>)
    ensures Valid(d) ==> Valid(r)
    ensures Get(r, k) == Get(d, k) + w
    ensures forall k' :: k' != k ==> Get(r, k') == Get(d, k')
    ensures k in r.values && forall k' :: k' in r.values <==> k' in d.values || k' == k
    ensures k in d.values ==> r.keys == d.keys
    ensures k !in d.values ==> r.keys == d.keys + [k]
  {
    if k in d.values then Counter(d.keys, d.values[k := d.values[k] + w])
    else Counter(d.keys + [k], d.values[k := w])
  }

  /** The dictionary after `d[k] += w` for each entry, in order, starting empty. */
  function Totals<K(==,!new)>(entries: seq<(K, nat)>): Counter<K>
    decreases |entries|
  {
    if entries == [] then Counter([], map[])
    else
      var (k, w) := entries[|entries| - 1];
      Add(Totals(entries[..|entries| - 1]), k, w)
  }

  /*
   * Reference definitions, read from the front.
   */

  /** The total weight of the entries for one key. */
  function WeightOf<K(==,!new)>(entries: seq<(K, nat)>, k: K): nat
  {
    if entries == [] then 0
    else (if entries[0].0 == k then entries[0].1 else 0) + WeightOf(entries[1..], k)
  }

  /** The total weight of all entries. */
  function Weight<K(==,!new)>(entries: seq<(K, nat)>): nat
  {
    if entries == [] then 0 else entries[0].1 + Weight(entries[1..])
  }

  /** The values of the given keys, added up. */
  function SumOver<K(==,!new)>(d: Counter<K>, ks: seq<K>): nat
  {
    if ks == [] then 0 else Get(d, ks[0]) + SumOver(d, ks[1..])
  }

  lemma {:induction false} WeightAppend<K(!new)>(entries: seq<(K, nat)>, e: (K, nat))
    ensures Weight(entries + [e]) == Weight(entries) + e.1
    ensures forall k :: WeightOf(entries + [e], k) == WeightOf(entries, k) + if e.0 == k then e.1 else 0
    decreases |entries|
  {
    if entries == [] {
      assert [] + [e] == [e];
    } else {
      WeightAppend(entries[1..], e);
      assert (entries + [e])[1..] == entries[1..] + [e];
    }
  }

  /**
   * The dictionary holds exactly the keys that occur in the entries, each
   * once in the key order, and the value of each key is the total weight of
   * its entries.
   */
  lemma {:induction false} TotalsCharacterized<K(!new)>(entries: seq<(K, nat)>)
    ensures Valid(Totals(entries))
    ensures forall k :: k in Totals(entries).values <==> exists i :: 0 <= i < |entries| && entries[i].0 == k
    ensures forall k :: Get(Totals(entries), k) == WeightOf(entries, k)
    decreases |entries|
  {
    if entries != [] {
      var init := entries[..|entries| - 1];
      var e := entries[|entries| - 1];
      TotalsCharacterized(init);
      WeightAppend(init, e);
      assert init + [e] == entries;
      assert forall i :: 0 <= i < |init| ==> init[i] == entries[i];
    }
  }

  /** `x` occurs in the entries before `y` first does. */
  ghost predicate ArrivesBefore<K(!new)>(entries: seq<(K, nat)>, x: K, y: K)
  {
    exists p :: 0 <= p < |entries| && entries[p].0 == x && forall q :: 0 <= q <= p ==> entries[q].0 != y
  }

  /** The keys of the dictionary are the keys that occur in the entries. */
  lemma TotalsKeys<K(!new)>(entries: seq<(K, nat)>)
    ensures Valid(Totals(entries))
    ensures forall k :: k in Totals(entries).values <==> exists i :: 0 <= i < |entries| && entries[i].0 == k
  {
    TotalsCharacterized(entries);
  }

  /** An order that holds among the first entries holds after one more. */
  lemma ArrivesBeforeAppend<K(!new)>(init: seq<(K, nat)>, e: (K, nat), x: K, y: K)
    requires ArrivesBefore(init, x, y)
    ensures ArrivesBefore(init + [e], x, y)
  {
    var p :| 0 <= p < |init| && init[p].0 == x && forall q :: 0 <= q <= p ==> init[q].0 != y;
    assert (init + [e])[p] == init[p];
    assert forall q :: 0 <= q <= p ==> (init + [e])[q] == init[q];
  }

  /** A key of the first entries arrives before a key that only the last entry brings. */
  lemma ArrivesBeforeNew<K(!new)>(init: seq<(K, nat)>, e: (K, nat), x: K)
    requires x in Totals(init).values && e.0 !in Totals(init).values
    ensures ArrivesBefore(init + [e], x, e.0)
  {
    TotalsKeys(init);
    var p :| 0 <= p < |init| && init[p].0 == x;
    assert (init + [e])[p] == init[p];
    assert forall q :: 0 <= q <= p ==> (init + [e])[q] == init[q] && init[q].0 != e.0;
  }

  /**
   * The key order is the order of first arrival: of two keys, the earlier
   * one occurs in the entries before the later one first does.
   */
  lemma {:induction false} TotalsKeyOrder<K(!new)>(entries: seq<(K, nat)>)
    ensures forall a, b :: 0 <= a < b < |Totals(entries).keys| ==>
      ArrivesBefore(entries, Totals(entries).keys[a], Totals(entries).keys[b])
    decreases |entries|
  {
    if entries != [] {
      var init := entries[..|entries| - 1];
      var e := entries[|entries| - 1];
      assert init + [e] == entries;
      TotalsKeyOrder(init);
      var d := Totals(init);
      TotalsKeys(init);
      var ks := Totals(entries).keys;
      assert Totals(entries) == Add(d, e.0, e.1);
      assert |d.keys| <= |ks| && forall i :: 0 <= i < |d.keys| ==> ks[i] == d.keys[i];
      forall a, b | 0 <= a < b < |ks|
        ensures ArrivesBefore(entries, ks[a], ks[b])
      {
        if b < |d.keys| {
          ArrivesBeforeAppend(init, e, d.keys[a], d.keys[b]);
        } else {
          assert ks[a] in d.keys;
          ArrivesBeforeNew(init, e, ks[a]);
        }
      }
    }
  }

  lemma {:induction false} SumOverAppend<K(!new)>(d: Counter<K>, ks: seq<K>, k: K)
    ensures SumOver(d, ks + [k]) == SumOver(d, ks) + Get(d, k)
    decreases |ks|
  {
    if ks == [] {
      assert [] + [k] == [k];
    } else {
      SumOverAppend(d, ks[1..], k);
      assert (ks + [k])[1..] == ks[1..] + [k];
    }
  }

  /** Raising one key by `w` raises the sum over a list holding it once by `w`. */
  lemma {:induction false} SumOverChange<K(!new)>(d: Counter<K>, d': Counter<K>, ks: seq<K>, k: K, w: nat)
    requires Distinct(ks)
    requires Get(d', k) == Get(d, k) + w
    requires forall k' :: k' != k ==> Get(d', k') == Get(d, k')
    ensures SumOver(d', ks) == SumOver(d, ks) + if k in ks then w else 0
    decreases |ks|
  {
    if ks != [] {
      assert Distinct(ks[1..]) by {
        forall i, j | 0 <= i < j < |ks[1..]| ensures ks[1..][i] != ks[1..][j] {
          assert ks[1..][i] == ks[i + 1] && ks[1..][j] == ks[j + 1];
        }
      }
      SumOverChange(d, d', ks[1..], k, w);
      assert k in ks <==> ks[0] == k || k in ks[1..];
      if ks[0] == k {
        assert k !in ks[1..] by {
          forall j | 0 <= j < |ks[1..]| ensures ks[1..][j] != k {
            assert ks[1..][j] == ks[j + 1];
          }
        }
      }
    }
  }

  /** The values of the dictionary add up to the total weight of the entries. */
  lemma {:induction false} TotalsSum<K(!new)>(entries: seq<(K, nat)>)
    ensures SumOver(Totals(entries), Totals(entries).keys) == Weight(entries)
    decreases |entries|
  {
    if entries != [] {
      var init := entries[..|entries| - 1];
      var e := entries[|entries| - 1];
      TotalsSum(init);
      TotalsCharacterized(init);
      WeightAppend(init, e);
      assert init + [e] == entries;
      var d, d' := Totals(init), Totals(entries);
      SumOverChange(d, d', d.keys, e.0, e.1);
      if e.0 !in d.values {
        SumOverAppend(d', d.keys, e.0);
        assert Get(d, e.0) == 0;
      }
    }
  }

  lemma {:induction false} DistinctCard<K(!new)>(ks: seq<K>)
    requires Distinct(ks)
    ensures |set k | k in ks| == |ks|
    decreases |ks|
  {
    if ks != [] {
      var init := ks[..|ks| - 1];
      var last := ks[|ks| - 1];
      assert Distinct(init);
      DistinctCard(init);
      assert last !in init;
      assert (set k | k in ks) == (set k | k in init) + {last};
    }
  }

  /** `len(d)`: the number of keys, which is the length of the key order. */
  lemma SizeIsKeyCount<K(!new)>(d: Counter<K>)
    requires Valid(d)
    ensures |d.values| == |d.keys|
  {
    DistinctCard(d.keys);
    assert d.values.Keys == set k | k in d.keys;
  }

  /** `len(d)` after the entries: the number of distinct keys among them. */
  lemma KeyCount<K(!new)>(entries: seq<(K, nat)>)
    ensures |Totals(entries).values| == |set i | 0 <= i < |entries| :: entries[i].0|
  {
    TotalsCharacterized(entries);
    var keys := set i | 0 <= i < |entries| :: entries[i].0;
    forall k | k in Totals(entries).values ensures k in keys {
      var i :| 0 <= i < |entries| && entries[i].0 == k;
    }
    assert Totals(entries).values.Keys == keys;
  }

  /**
   * `max(keys, key=d.get)`: scanning the keys in order, the best so far is
   * replaced only by a strictly larger value, so the first key with the
   * largest value wins; no keys, no answer.
   */
  function Heaviest<K(==,!new)>(d: Counter<K>, keys: seq<K>): (r: Option<K>)
    ensures r.None? <==> keys == []
    ensures r.Some? ==> r.value in keys
    decreases |keys|
  {
    if keys == [] then None
    else
      var init := keys[..|keys| - 1];
      var last := keys[|keys| - 1];
      assert forall k :: k in init ==> k in keys;
      match Heaviest(d, init)
      case None => Some(last)
      case Some(best) =>
        if Get(d, last) > Get(d, best) then Some(last) else Some(best)
  }

  /** The key `max` returns has the largest value, and no earlier key has as large a value. */
  lemma {:induction false} HeaviestIsFirstMax<K(!new)>(d: Counter<K>, keys: seq<K>)
    requires keys != []
    ensures var r := Heaviest(d, keys).value;
      (forall k :: k in keys ==> Get(d, k) <= Get(d, r))
      && exists j :: 0 <= j < |keys| && keys[j] == r && forall i :: 0 <= i < j ==> Get(d, keys[i]) < Get(d, r)
    decreases |keys|
  {
    var init := keys[..|keys| - 1];
    var last := keys[|keys| - 1];
    var r := Heaviest(d, keys).value;
    assert forall k :: k in keys <==> k in init || k == last;
    if init == [] {
      assert keys == [last] && r == last;
      assert keys[0] == r;
    } else {
      HeaviestIsFirstMax(d, init);
      var best := Heaviest(d, init).value;
      var j :| 0 <= j < |init| && init[j] == best && forall i :: 0 <= i < j ==> Get(d, init[i]) < Get(d, best);
      if Get(d, last) > Get(d, best) {
        assert r == last && keys[|keys| - 1] == r;
        assert forall i :: 0 <= i < |keys| - 1 ==> keys[i] == init[i] && Get(d, init[i]) <= Get(d, best);
      } else {
        assert r == best && keys[j] == init[j];
        assert forall i :: 0 <= i < j ==> keys[i] == init[i];
      }
    }
  }

  /** Any key tied with the answer of `max` comes later in the scanned order. */
  lemma HeaviestTiesLater<K(!new)>(d: Counter<K>, keys: seq<K>)
    requires keys != []
    ensures forall k :: k in keys ==> Get(d, k) <= Get(d, Heaviest(d, keys).value)
    ensures forall b :: 0 <= b < |keys| && keys[b] != Heaviest(d, keys).value && Get(d, keys[b]) == Get(d, Heaviest(d, keys).value) ==>
      exists j :: 0 <= j < b && keys[j] == Heaviest(d, keys).value
  {
    HeaviestIsFirstMax(d, keys);
    var r := Heaviest(d, keys).value;
    var j :| 0 <= j < |keys| && keys[j] == r && forall i :: 0 <= i < j ==> Get(d, keys[i]) < Get(d, r);
    forall b | 0 <= b < |keys| && keys[b] != r && Get(d, keys[b]) == Get(d, r)
      ensures exists j :: 0 <= j < b && keys[j] == r
    {
      assert j < b;
    }
  }

  /** The dictionary after the entries is well formed, and has a key when there was an entry. */
  lemma TotalsValid<K(!new)>(entries: seq<(K, nat)>)
    ensures Valid(Totals(entries))
    ensures entries != [] ==> Totals(entries).keys != []
  {
    TotalsCharacterized(entries);
    if entries != [] {
      assert entries[0].0 in Totals(entries).values;
    }
  }

  /**
   * `max(d, key=d.get)` after the entries: the answer carries the largest
   * value, and any other key with that value first arrived after it.
   */
  lemma HeaviestArrivesFirst<K(!new)>(entries: seq<(K, nat)>)
    requires entries != []
    ensures var d := Totals(entries);
      Heaviest(d, d.keys).Some? && Heaviest(d, d.keys).value in d.values
      && (forall k :: k in d.values ==> Get(d, k) <= Get(d, Heaviest(d, d.keys).value))
      && forall k :: k in d.values && k != Heaviest(d, d.keys).value && Get(d, k) == Get(d, Heaviest(d, d.keys).value) ==>
           ArrivesBefore(entries, Heaviest(d, d.keys).value, k)
  {
    var d := Totals(entries);
    TotalsValid(entries);
    TotalsKeyOrder(entries);
    HeaviestTiesLater(d, d.keys);
    var r := Heaviest(d, d.keys).value;
    forall k | k in d.values && k != r && Get(d, k) == Get(d, r)
      ensures ArrivesBefore(entries, r, k)
    {
      var b :| 0 <= b < |d.keys| && d.keys[b] == k;
      var j :| 0 <= j < b && d.keys[j] == r;
    }
  }

  /** The scan `max` does over the dictionary's keys. */
  method ArgMax<K(==,!new)>(d: Counter<K>) returns (r: Option<K>)
    ensures r == Heaviest(d, d.keys)
  {
    if |d.keys| == 0 {
      return None;
    }
    var best := d.keys[0];
    var i := 1;
    assert d.keys[..1][..0] == [];
    while i < |d.keys|
      invariant 1 <= i <= |d.keys|
      invariant Heaviest(d, d.keys[..i]) == Some(best)
    {
      assert d.keys[..i + 1][..i] == d.keys[..i];
      if Get(d, d.keys[i]) > Get(d, best) {
        best := d.keys[i];
      }
      i := i + 1;
    }
    assert d.keys[..i] == d.keys;
    r := Some(best);
  }
}
