/** The dictionaries of lists the compressor builds over its references
    (`get_refs_indexed_by_img`, `get_refs_indexed_by_hash_by_img`): a Python
    dict keeps keys in insertion order and each list keeps the order of the
    appends. References are named by their position in the reference list. */
module Grouping {
  import opened Base

  /** One dict entry: a key and the positions appended under it. */
  datatype Bucket<K> = Bucket(key: K, items: seq<nat>)

  /** One entry of a dict of dicts. */
  datatype Bucket2<K, L> = Bucket2(key: K, inner: seq<Bucket<L>>)

  function Range(n: nat): (r: seq<nat>)
    ensures |r| == n && forall i | 0 <= i < n :: r[i] == i
  {
    seq(n, i => i)
  }

  predicate Increasing(ps: seq<nat>)
  {
    forall i, j | 0 <= i < j < |ps| :: ps[i] < ps[j]
  }

  /** The last of the first `n` positions is above, and so differs from,
      every earlier one. */
  lemma IncreasingLast(ps: seq<nat>, n: nat)
    requires Increasing(ps) && 0 < n <= |ps|
    ensures forall t | 0 <= t < n - 1 :: ps[t] < ps[n - 1]
    ensures ps[n - 1] !in ps[..n - 1]
  {
    assert forall t | 0 <= t < n - 1 :: ps[..n - 1][t] == ps[t];
  }

  predicate Bounded(ps: seq<nat>, n: nat)
  {
    forall i | 0 <= i < |ps| :: ps[i] < n
  }

  /** `k in d`, as the position of the entry. */
  function FindKey<K(==)>(bs: seq<Bucket<K>>, k: K): (r: Option<nat>)
    ensures r.Some? ==> r.value < |bs| && bs[r.value].key == k
    ensures r.None? ==> forall i | 0 <= i < |bs| :: bs[i].key != k
  {
    if bs == [] then None
    else if bs[0].key == k then Some(0)
    else match FindKey(bs[1..], k)
      case None => None
      case Some(i) => Some(i + 1)
  }

  /** `if k not in d: d[k] = []` followed by `d[k].append(p)`. */
  function Insert<K(==)>(bs: seq<Bucket<K>>, k: K, p: nat): seq<Bucket<K>>
  {
    match FindKey(bs, k)
    case Some(i) => bs[i := Bucket(k, bs[i].items + [p])]
    case None => bs + [Bucket(k, [p])]
  }

  /** The dict built by appending the positions `ps`, in order, each under
      its own key. */
  function Group<K(==)>(keys: seq<K>, ps: seq<nat>): (r: seq<Bucket<K>>)
    requires Bounded(ps, |keys|)
    ensures forall i, t | 0 <= i < |r| && 0 <= t < |r[i].items| :: r[i].items[t] in ps
    decreases |ps|
  {
    if ps == [] then []
    else
      var p := ps[|ps| - 1];
      var r := Insert(Group(keys, ps[..|ps| - 1]), keys[p], p);
      assert forall q | q in ps[..|ps| - 1] :: q in ps;
      r
  }

  /** The same dict with a second level: positions go under their first key,
      and inside it under their second key. */
  function Insert2<K(==), L(==)>(bs: seq<Bucket2<K, L>>, k: K, l: L, p: nat): seq<Bucket2<K, L>>
  {
    match FindKey2(bs, k)
    case Some(i) => bs[i := Bucket2(k, Insert(bs[i].inner, l, p))]
    case None => bs + [Bucket2(k, [Bucket(l, [p])])]
  }

  function FindKey2<K(==), L>(bs: seq<Bucket2<K, L>>, k: K): (r: Option<nat>)
    ensures r.Some? ==> r.value < |bs| && bs[r.value].key == k
    ensures r.None? ==> forall i | 0 <= i < |bs| :: bs[i].key != k
  {
    if bs == [] then None
    else if bs[0].key == k then Some(0)
    else match FindKey2(bs[1..], k)
      case None => None
      case Some(i) => Some(i + 1)
  }

  function Group2<K(==), L(==)>(k1s: seq<K>, k2s: seq<L>, ps: seq<nat>): seq<Bucket2<K, L>>
    requires |k1s| == |k2s| && Bounded(ps, |k1s|)
    decreases |ps|
  {
    if ps == [] then []
    else
      var p := ps[|ps| - 1];
      Insert2(Group2(k1s, k2s, ps[..|ps| - 1]), k1s[p], k2s[p], p)
  }

  // ---------------------------------------------------------------------
  // Partition
  // ---------------------------------------------------------------------

  /** The dict places every position of `ps` exactly once, under its own
      key: keys are distinct, every list is non-empty, in input order and
      holds only positions of `ps` with that key, every position is in some
      list, and keys appear in the order of their first position. */
  ghost predicate Partition<K>(bs: seq<Bucket<K>>, keys: seq<K>, ps: seq<nat>)
  {
    DistinctKeys(bs) && Ordered(bs) && Placed(bs, keys, ps) && Covered(bs, ps) && FirstOrder(bs)
  }

  ghost predicate DistinctKeys<K>(bs: seq<Bucket<K>>)
  {
    forall i, j | 0 <= i < j < |bs| :: bs[i].key != bs[j].key
  }

  ghost predicate Ordered<K>(bs: seq<Bucket<K>>)
  {
    forall i | 0 <= i < |bs| :: bs[i].items != [] && Increasing(bs[i].items)
  }

  ghost predicate Placed<K>(bs: seq<Bucket<K>>, keys: seq<K>, ps: seq<nat>)
  {
    forall i, t | 0 <= i < |bs| && 0 <= t < |bs[i].items| ::
      bs[i].items[t] in ps && bs[i].items[t] < |keys| && keys[bs[i].items[t]] == bs[i].key
  }

  ghost predicate Covered<K>(bs: seq<Bucket<K>>, ps: seq<nat>)
  {
    forall p | p in ps :: exists i | 0 <= i < |bs| :: p in bs[i].items
  }

  ghost predicate FirstOrder<K>(bs: seq<Bucket<K>>)
  {
    forall i, j | 0 <= i < j < |bs| && bs[i].items != [] && bs[j].items != [] ::
      bs[i].items[0] < bs[j].items[0]
  }

  /** Appending a larger position to an increasing list keeps it increasing. */
  lemma AppendIncreasing(items: seq<nat>, p: nat)
    requires Increasing(items) && forall q | q in items :: q < p
    ensures Increasing(items + [p])
  {
    var items' := items + [p];
    forall a, b | 0 <= a < b < |items'| ensures items'[a] < items'[b] {
      assert items'[a] == items[a] && items[a] in items;
      if b < |items| {
        assert items'[b] == items[b];
      }
    }
  }

  /** Appending to an existing entry keeps the partition. */
  lemma AppendPartition<K>(bs: seq<Bucket<K>>, keys: seq<K>, ps: seq<nat>, p: nat, i: nat)
    requires Partition(bs, keys, ps)
    requires p < |keys| && forall q | q in ps :: q < p
    requires i < |bs| && bs[i].key == keys[p]
    ensures Partition(bs[i := Bucket(keys[p], bs[i].items + [p])], keys, ps + [p])
  {
    var items' := bs[i].items + [p];
    var bs' := bs[i := Bucket(keys[p], items')];
    forall q | q in bs[i].items ensures q < p {
      var t :| 0 <= t < |bs[i].items| && bs[i].items[t] == q;
    }
    AppendIncreasing(bs[i].items, p);
    AppendKeepsOrder(bs, i, keys[p], p);
    AppendPlaced(bs, keys, ps, p, i);
    AppendCovered(bs, ps, p, i);
  }

  /** Appending to a list that is still increasing keeps the keys, the
      non-empty increasing lists and the order of first positions. */
  lemma AppendKeepsOrder<K>(bs: seq<Bucket<K>>, i: nat, k: K, p: nat)
    requires DistinctKeys(bs) && Ordered(bs) && FirstOrder(bs)
    requires i < |bs| && bs[i].key == k && Increasing(bs[i].items + [p])
    ensures var bs' := bs[i := Bucket(k, bs[i].items + [p])];
      DistinctKeys(bs') && Ordered(bs') && FirstOrder(bs')
  {
    var bs' := bs[i := Bucket(k, bs[i].items + [p])];
    forall a | 0 <= a < |bs'| ensures bs'[a].key == bs[a].key && bs'[a].items[0] == bs[a].items[0] {
    }
  }

  lemma AppendPlaced<K>(bs: seq<Bucket<K>>, keys: seq<K>, ps: seq<nat>, p: nat, i: nat)
    requires Placed(bs, keys, ps)
    requires p < |keys| && i < |bs| && bs[i].key == keys[p]
    ensures Placed(bs[i := Bucket(keys[p], bs[i].items + [p])], keys, ps + [p])
  {
    var bs' := bs[i := Bucket(keys[p], bs[i].items + [p])];
    forall j, t | 0 <= j < |bs'| && 0 <= t < |bs'[j].items|
      ensures bs'[j].items[t] in ps + [p] && bs'[j].items[t] < |keys| && keys[bs'[j].items[t]] == bs'[j].key
    {
      if j != i || t < |bs[i].items| {
        assert bs'[j].items[t] == bs[j].items[t];
      }
    }
  }

  lemma AppendCovered<K>(bs: seq<Bucket<K>>, ps: seq<nat>, p: nat, i: nat)
    requires Covered(bs, ps) && i < |bs|
    ensures forall k: K :: Covered(bs[i := Bucket(k, bs[i].items + [p])], ps + [p])
  {
    forall k: K ensures Covered(bs[i := Bucket(k, bs[i].items + [p])], ps + [p]) {
      var bs' := bs[i := Bucket(k, bs[i].items + [p])];
      forall q | q in ps + [p] ensures exists j | 0 <= j < |bs'| :: q in bs'[j].items {
        if q == p {
          assert p in bs'[i].items;
        } else {
          var j :| 0 <= j < |bs| && q in bs[j].items;
          assert q in bs'[j].items;
        }
      }
    }
  }

  /** Opening a new entry at the end keeps the partition. */
  lemma OpenPartition<K>(bs: seq<Bucket<K>>, keys: seq<K>, ps: seq<nat>, p: nat)
    requires Partition(bs, keys, ps)
    requires p < |keys| && forall q | q in ps :: q < p
    requires forall i | 0 <= i < |bs| :: bs[i].key != keys[p]
    ensures Partition(bs + [Bucket(keys[p], [p])], keys, ps + [p])
  {
    var bs' := bs + [Bucket(keys[p], [p])];
    assert DistinctKeys(bs');
    assert Ordered(bs') by {
      forall j | 0 <= j < |bs'| ensures bs'[j].items != [] && Increasing(bs'[j].items) {
        if j < |bs| {
          assert bs'[j] == bs[j];
        }
      }
    }
    OpenPlaced(bs, keys, ps, p);
    OpenCovered(bs, ps, Bucket(keys[p], [p]));
    OpenFirst(bs, keys, ps, p);
  }

  lemma OpenPlaced<K>(bs: seq<Bucket<K>>, keys: seq<K>, ps: seq<nat>, p: nat)
    requires Placed(bs, keys, ps) && p < |keys|
    ensures Placed(bs + [Bucket(keys[p], [p])], keys, ps + [p])
  {
    var bs' := bs + [Bucket(keys[p], [p])];
    forall j, t | 0 <= j < |bs'| && 0 <= t < |bs'[j].items|
      ensures bs'[j].items[t] in ps + [p] && bs'[j].items[t] < |keys| && keys[bs'[j].items[t]] == bs'[j].key
    {
      if j < |bs| {
        assert bs'[j] == bs[j];
      }
    }
  }

  lemma OpenCovered<K>(bs: seq<Bucket<K>>, ps: seq<nat>, b: Bucket<K>)
    requires Covered(bs, ps) && |b.items| == 1
    ensures Covered(bs + [b], ps + [b.items[0]])
  {
    var bs' := bs + [b];
    forall q | q in ps + [b.items[0]] ensures exists j | 0 <= j < |bs'| :: q in bs'[j].items {
      if q == b.items[0] {
        assert q in bs'[|bs|].items;
      } else {
        var j :| 0 <= j < |bs| && q in bs[j].items;
        assert bs'[j] == bs[j];
      }
    }
  }

  lemma OpenFirst<K>(bs: seq<Bucket<K>>, keys: seq<K>, ps: seq<nat>, p: nat)
    requires FirstOrder(bs) && Ordered(bs) && Placed(bs, keys, ps)
    requires p < |keys| && forall q | q in ps :: q < p
    ensures FirstOrder(bs + [Bucket(keys[p], [p])])
  {
    var bs' := bs + [Bucket(keys[p], [p])];
    forall a, b | 0 <= a < b < |bs'| ensures bs'[a].items[0] < bs'[b].items[0] {
      assert bs'[a] == bs[a];
      if b == |bs| {
        assert bs[a].items[0] in ps;
      } else {
        assert bs'[b] == bs[b];
      }
    }
  }

  lemma InsertPartition<K>(bs: seq<Bucket<K>>, keys: seq<K>, ps: seq<nat>, p: nat)
    requires Partition(bs, keys, ps)
    requires p < |keys| && forall q | q in ps :: q < p
    ensures Partition(Insert(bs, keys[p], p), keys, ps + [p])
  {
    match FindKey(bs, keys[p])
    case Some(i) => AppendPartition(bs, keys, ps, p, i);
    case None => OpenPartition(bs, keys, ps, p);
  }

  /** The index groups the input positions as a partition, by key, in order. */
  lemma {:induction false} GroupPartition<K>(keys: seq<K>, ps: seq<nat>)
    requires Bounded(ps, |keys|) && Increasing(ps)
    ensures Partition(Group(keys, ps), keys, ps)
    decreases |ps|
  {
    if ps != [] {
      var init := ps[..|ps| - 1];
      var p := ps[|ps| - 1];
      GroupPartition(keys, init);
      forall q | q in init ensures q < p {
        var a :| 0 <= a < |init| && init[a] == q;
      }
      InsertPartition(Group(keys, init), keys, init, p);
      assert init + [p] == ps;
    }
  }

  /** The entry of a position: the one whose key is the position's key. */
  lemma PartitionPlace<K>(bs: seq<Bucket<K>>, keys: seq<K>, ps: seq<nat>, p: nat)
    requires Partition(bs, keys, ps) && p in ps
    ensures exists i | 0 <= i < |bs| :: p in bs[i].items && bs[i].key == keys[p]
    ensures forall i | 0 <= i < |bs| && p in bs[i].items :: bs[i].key == keys[p]
  {
    forall i | 0 <= i < |bs| && p in bs[i].items ensures bs[i].key == keys[p] {
      var t :| 0 <= t < |bs[i].items| && bs[i].items[t] == p;
    }
  }

  /** Two positions with different keys land in two different buckets. */
  lemma TwoKeys<K>(bs: seq<Bucket<K>>, keys: seq<K>, ps: seq<nat>, p: nat, q: nat)
    requires Partition(bs, keys, ps) && p in ps && q in ps
    requires p < |keys| && q < |keys| && keys[p] != keys[q]
    ensures |bs| > 1
  {
    var i := BucketOf(bs, keys, ps, p);
    var j := BucketOf(bs, keys, ps, q);
    assert bs[i].key != bs[j].key;
  }

  /** The bucket a position lands in. */
  lemma BucketOf<K>(bs: seq<Bucket<K>>, keys: seq<K>, ps: seq<nat>, p: nat) returns (i: nat)
    requires Partition(bs, keys, ps) && p in ps && p < |keys|
    ensures i < |bs| && bs[i].key == keys[p]
  {
    PartitionPlace(bs, keys, ps, p);
    i :| 0 <= i < |bs| && p in bs[i].items && bs[i].key == keys[p];
  }

  /** The first key is the key of the first position: the canonical entry of
      an index is the one inserted first. */
  lemma FirstKeyIsEarliest<K>(bs: seq<Bucket<K>>, keys: seq<K>, ps: seq<nat>)
    requires Partition(bs, keys, ps) && Increasing(ps) && ps != [] && Bounded(ps, |keys|)
    ensures bs != [] && bs[0].key == keys[ps[0]]
  {
    var p := ps[0];
    assert p in ps;
    var j :| 0 <= j < |bs| && p in bs[j].items;
    PartitionPlace(bs, keys, ps, p);
    var t :| 0 <= t < |bs[j].items| && bs[j].items[t] == p;
    var q := bs[0].items[0];
    FirstItemLeast(bs, j, t);
    assert q in ps;
    LeastOfIncreasing(ps, q);
    assert q == p;
    assert p in bs[0].items;
  }

  /** No position of the dict comes before the first position of its first
      entry. */
  lemma FirstItemLeast<K>(bs: seq<Bucket<K>>, j: nat, t: nat)
    requires Ordered(bs) && FirstOrder(bs) && j < |bs| && t < |bs[j].items|
    ensures bs[0].items[0] <= bs[j].items[t]
  {
    assert bs[j].items[0] <= bs[j].items[t] by {
      if t > 0 {
        assert bs[j].items[0] < bs[j].items[t];
      }
    }
    if j > 0 {
      assert bs[0].items[0] < bs[j].items[0];
    }
  }

  lemma LeastOfIncreasing(ps: seq<nat>, q: nat)
    requires Increasing(ps) && q in ps
    ensures ps[0] <= q
  {
    var a :| 0 <= a < |ps| && ps[a] == q;
    if a > 0 {
      assert ps[0] < ps[a];
    }
  }

  // ---------------------------------------------------------------------
  // The two-level index
  // ---------------------------------------------------------------------

  lemma FindKeyAgree<K, L>(bs2: seq<Bucket2<K, L>>, bs: seq<Bucket<K>>, k: K)
    requires |bs2| == |bs| && forall i | 0 <= i < |bs| :: bs2[i].key == bs[i].key
    ensures FindKey2(bs2, k) == FindKey(bs, k)
    decreases |bs|
  {
    if bs != [] && bs[0].key != k {
      FindKeyAgree(bs2[1..], bs[1..], k);
    }
  }

  /** The dict of dicts is the one-level index by the first key, each of whose
      lists is then indexed by the second key. */
  lemma {:induction false} Group2Spec<K, L>(k1s: seq<K>, k2s: seq<L>, ps: seq<nat>)
    requires |k1s| == |k2s| && Bounded(ps, |k1s|)
    ensures var g2, g1 := Group2(k1s, k2s, ps), Group(k1s, ps);
      && |g2| == |g1|
      && forall i | 0 <= i < |g1| ::
           && g2[i].key == g1[i].key
           && Bounded(g1[i].items, |k2s|)
           && g2[i].inner == Group(k2s, g1[i].items)
    decreases |ps|
  {
    if ps != [] {
      var init := ps[..|ps| - 1];
      var p := ps[|ps| - 1];
      Group2Spec(k1s, k2s, init);
      var h2, h1 := Group2(k1s, k2s, init), Group(k1s, init);
      var g2, g1 := Group2(k1s, k2s, ps), Group(k1s, ps);
      forall i | 0 <= i < |h1| ensures Bounded(h1[i].items, |k2s|) {
        forall t | 0 <= t < |h1[i].items| ensures h1[i].items[t] < |k2s| {
          assert h1[i].items[t] in init;
        }
      }
      FindKeyAgree(h2, h1, k1s[p]);
      match FindKey(h1, k1s[p])
      case Some(i) =>
        var items := h1[i].items;
        assert (items + [p])[..|items|] == items;
        forall j | 0 <= j < |g1| ensures g2[j].key == g1[j].key && Bounded(g1[j].items, |k2s|) && g2[j].inner == Group(k2s, g1[j].items) {
          if j == i {
            assert g1[j].items == items + [p];
          }
        }
      case None =>
        assert Group(k2s, [p]) == [Bucket(k2s[p], [p])];
        forall j | 0 <= j < |g1| ensures g2[j].key == g1[j].key && Bounded(g1[j].items, |k2s|) && g2[j].inner == Group(k2s, g1[j].items) {
          if j < |h1| {
            assert g1[j] == h1[j] && g2[j] == h2[j];
          }
        }
    }
  }
}
