/** A cache that evicts items at random, bounded by count or by tracked size. */
module Cache {
  import opened CacheSizes
  import opened CommutativeGroup
  import opened Outcomes

  datatype CachePolicy = Empty | Count(limit: nat) | Tracked(limit: nat, least: nat)

  datatype PolicyInner = PolicyInner(tracked: bool, maxSize: nat, minItems: nat)

  function Inner(p: CachePolicy): PolicyInner
  {
    match p
    case Empty => PolicyInner(false, 0, 0)
    case Count(n) => PolicyInner(false, n, 0)
    case Tracked(n, least) => PolicyInner(true, n, least)
  }

  /** Every item of a is an item of b. */
  ghost predicate Within<K(!new), V>(a: map<K, V>, b: map<K, V>)
  {
    forall k :: k in a ==> k in b && a[k] == b[k]
  }

  /** Nothing was evicted, or putting back the last evicted item would break the policy again. */
  ghost predicate NoNeedlessEviction<K(!new), V>(p: PolicyInner, size: V -> nat, before: map<K, V>, after: map<K, V>)
  {
    after == before ||
    exists k :: k in before && k !in after
      && TotalSize(size, after) + size(before[k]) > p.maxSize && |after| + 1 > p.minItems
  }

  /** Items were evicted one by one for as long as the policy was broken, and no longer. */
  ghost predicate EvictsTo<K(!new), V>(p: PolicyInner, size: V -> nat, before: map<K, V>, after: map<K, V>)
  {
    && Within(after, before) && NoNeedlessEviction(p, size, before, after)
    && (TotalSize(size, after) <= p.maxSize || |after| <= p.minItems)
    && (TotalSize(size, before) <= p.maxSize || |before| <= p.minItems ==> after == before)
  }

  /** Everything an insertion can lead to: by size with evictions, by count with one item giving way in a full cache. */
  ghost predicate InsertsTo<K(!new), V>(p: PolicyInner, size: V -> nat, before: map<K, V>, key: K, data: V, after: map<K, V>)
  {
    if p.maxSize == 0 then after == before
    else if p.tracked then EvictsTo(p, size, before[key := data], after)
    else if |before| == p.maxSize then exists k :: k in before && after == (before - {k})[key := data]
    else after == before[key := data]
  }

  /** Everything a change in place can lead to. */
  ghost predicate ChangesTo<K(!new), V>(p: PolicyInner, size: V -> nat, before: map<K, V>, key: K, data: V, after: map<K, V>)
  {
    if key !in before then after == before
    else if p.tracked then EvictsTo(p, size, before[key := data], after)
    else after == before[key := data]
  }

  /** Everything inserting the pairs one after the other can lead to. */
  ghost predicate InsertsAllTo<K(!new), V(!new)>(
    p: PolicyInner, size: V -> nat, before: map<K, V>, pairs: seq<(K, V)>, after: map<K, V>)
  {
    if pairs == [] then after == before
    else
      var n := |pairs| - 1;
      exists mid ::
        InsertsAllTo(p, size, before, pairs[..n], mid) && Leads(p, size, mid, pairs[n], after)
  }

  ghost predicate Leads<K(!new), V>(p: PolicyInner, size: V -> nat, before: map<K, V>, pair: (K, V), after: map<K, V>)
  {
    InsertsTo(p, size, before, pair.0, pair.1, after)
  }

  lemma {:induction false} InsertsOneMore<K(!new), V(!new)>(
    p: PolicyInner, size: V -> nat, before: map<K, V>, pairs: seq<(K, V)>, i: nat, items: map<K, V>, next: map<K, V>)
    requires i < |pairs| && InsertsAllTo(p, size, before, pairs[..i], items) && Leads(p, size, items, pairs[i], next)
    ensures InsertsAllTo(p, size, before, pairs[..i + 1], next)
  {
    assert pairs[..i + 1][..i] == pairs[..i];
  }

  /** Whatever is evicted, a cache holds no more than the assigned items, the last pair of each key among them. */
  lemma {:induction false} InsertedAll<K(!new), V(!new)>(
    p: PolicyInner, size: V -> nat, before: map<K, V>, pairs: seq<(K, V)>, after: map<K, V>)
    requires p.maxSize > 0 && InsertsAllTo(p, size, before, pairs, after)
    ensures Within(after, Updated(before, pairs))
    ensures !p.tracked ==> |after| <= |before| + |pairs|
    ensures RoomForAll(p, size, before, pairs) ==> after == Updated(before, pairs)
  {
    if pairs != [] {
      var n := |pairs| - 1;
      var mid :| InsertsAllTo(p, size, before, pairs[..n], mid) && Leads(p, size, mid, pairs[n], after);
      InsertedAll(p, size, before, pairs[..n], mid);
      InsertedOneMore(p, size, before, pairs, mid, after);
    }
  }

  lemma InsertedOneMore<K(!new), V(!new)>(
    p: PolicyInner, size: V -> nat, before: map<K, V>, pairs: seq<(K, V)>, mid: map<K, V>, after: map<K, V>)
    requires p.maxSize > 0 && pairs != [] && Leads(p, size, mid, pairs[|pairs| - 1], after)
    requires var init := pairs[..|pairs| - 1];
             && Within(mid, Updated(before, init)) && (!p.tracked ==> |mid| <= |before| + |init|)
             && (RoomForAll(p, size, before, init) ==> mid == Updated(before, init))
    ensures Within(after, Updated(before, pairs)) && (!p.tracked ==> |after| <= |before| + |pairs|)
    ensures RoomForAll(p, size, before, pairs) ==> after == Updated(before, pairs)
  {
    var n := |pairs| - 1;
    InsertedOne(p, size, mid, pairs[n].0, pairs[n].1, after);
    if RoomForAll(p, size, before, pairs) { RoomForFewer(p, size, before, pairs, n); }
  }

  /** A cache bounded by count keeps the last item inserted. */
  lemma {:induction false} LastIsKept<K(!new), V(!new)>(
    p: PolicyInner, size: V -> nat, before: map<K, V>, pairs: seq<(K, V)>, after: map<K, V>)
    requires InsertsAllTo(p, size, before, pairs, after)
    ensures p.maxSize > 0 && !p.tracked && pairs != [] ==>
      var (key, data) := pairs[|pairs| - 1]; key in after && after[key] == data
  {
    if p.maxSize > 0 && pairs != [] {
      var n := |pairs| - 1;
      var mid :| InsertsAllTo(p, size, before, pairs[..n], mid) && Leads(p, size, mid, pairs[n], after);
      InsertedOne(p, size, mid, pairs[n].0, pairs[n].1, after);
    }
  }

  /** What every insertion does: nothing else comes in, a counted cache keeps the item, and with room nothing goes. */
  lemma InsertedOne<K(!new), V>(p: PolicyInner, size: V -> nat, before: map<K, V>, key: K, data: V, after: map<K, V>)
    requires p.maxSize > 0 && InsertsTo(p, size, before, key, data, after)
    ensures Within(after, before[key := data])
    ensures !p.tracked ==> key in after && after[key] == data && |after| <= |before| + 1
    ensures !p.tracked && |before| < p.maxSize ==> after == before[key := data]
    ensures p.tracked && TotalSize(size, before[key := data]) <= p.maxSize ==> after == before[key := data]
  {
    if !p.tracked && |before| == p.maxSize {
      var k :| k in before && after == (before - {k})[key := data];
      assert after.Keys <= before.Keys + {key};
    }
    if !p.tracked { SubsetSize(after.Keys, before.Keys + {key}); }
  }

  /** With room for every pair by count, or for every stage by size, all pairs end up in the cache. */
  ghost predicate RoomForAll<K(!new), V>(p: PolicyInner, size: V -> nat, before: map<K, V>, pairs: seq<(K, V)>)
  {
    if p.tracked then forall i :: 0 <= i <= |pairs| ==> TotalSize(size, Updated(before, pairs[..i])) <= p.maxSize
    else |before| + |pairs| <= p.maxSize
  }

  lemma RoomForFewer<K(!new), V>(p: PolicyInner, size: V -> nat, before: map<K, V>, pairs: seq<(K, V)>, n: nat)
    requires |pairs| == n + 1 && RoomForAll(p, size, before, pairs)
    ensures RoomForAll(p, size, before, pairs[..n])
    ensures p.tracked ==> TotalSize(size, Updated(before, pairs)) <= p.maxSize
  {
    if p.tracked {
      forall j | 0 <= j <= n ensures TotalSize(size, Updated(before, pairs[..n][..j])) <= p.maxSize {
        assert pairs[..n][..j] == pairs[..j];
      }
      assert pairs[..n + 1] == pairs;
    }
  }

  /** The map after assigning the pairs in order. */
  function Updated<K, V>(m: map<K, V>, pairs: seq<(K, V)>): map<K, V>
  {
    if pairs == [] then m
    else
      var last := pairs[|pairs| - 1];
      Updated(m, pairs[..|pairs| - 1])[last.0 := last.1]
  }

  function Without<K, V>(m: map<K, V>, keys: seq<K>): map<K, V>
  {
    if keys == [] then m else Without(m, keys[..|keys| - 1]) - {keys[|keys| - 1]}
  }

  lemma {:induction false} SubsetSize<K>(x: set<K>, y: set<K>)
    requires x <= y
    ensures |x| <= |y|
  {
    if x != {} {
      var e :| e in x;
      SubsetSize(x - {e}, y - {e});
    }
  }

  lemma {:induction false} SkipAll<K(!new), V(!new)>(p: PolicyInner, size: V -> nat, m: map<K, V>, pairs: seq<(K, V)>)
    requires p.maxSize == 0
    ensures InsertsAllTo(p, size, m, pairs, m)
  {
    if pairs != [] { SkipAll(p, size, m, pairs[..|pairs| - 1]); }
  }

  lemma {:induction false} WithoutOneMore<K, V>(m: map<K, V>, keys: seq<K>, i: nat)
    requires i < |keys|
    ensures Without(m, keys[..i + 1]) == Without(m, keys[..i]) - {keys[i]}
  {
    assert keys[..i + 1][..i] == keys[..i];
  }

  lemma {:induction false} WithoutEmpty<K, V>(m: map<K, V>, keys: seq<K>)
    requires m == map[]
    ensures Without(m, keys) == map[]
  {
    if keys != [] { WithoutEmpty(m, keys[..|keys| - 1]); }
  }

  /** Evicting one more item while the policy is broken is not needless. */
  lemma EvictedOne<K(!new), V>(p: PolicyInner, size: V -> nat, before: map<K, V>, items: map<K, V>, k: K)
    requires k in items && Within(items, before) && TotalSize(size, items) > p.maxSize && |items| > p.minItems
    ensures size(items[k]) <= TotalSize(size, items)
    ensures TotalSize(size, items - {k}) == TotalSize(size, items) - size(items[k])
    ensures Within(items - {k}, before) && NoNeedlessEviction(p, size, before, items - {k}) && |items - {k}| < |items|
  {
    ItemFits(size, items, k);
    TotalTakesOut(size, items, k);
    assert items.Keys == (items - {k}).Keys + {k};
    assert k in before && k !in items - {k};
  }

  method EvictTracked<K(==, !new), V>(p: PolicyInner, size: V -> nat, before: map<K, V>, tracked: nat)
    returns (items: map<K, V>, total: nat)
    requires tracked == TotalSize(size, before)
    ensures total == TotalSize(size, items) && EvictsTo(p, size, before, items)
  {
    items, total := before, tracked;
    while total > p.maxSize && |items| > p.minItems
      invariant total == TotalSize(size, items) && Within(items, before) && NoNeedlessEviction(p, size, before, items)
      invariant tracked <= p.maxSize || |before| <= p.minItems ==> items == before
      decreases |items|
    {
      assert |items.Keys| > 0;
      var k :| k in items.Keys;
      EvictedOne(p, size, before, items, k);
      total := total - size(items[k]);
      items := items - {k};
    }
  }

  /** A key without a pair keeps what it had. */
  lemma {:induction false} UpdatedOther<K, V>(m: map<K, V>, pairs: seq<(K, V)>, k: K)
    requires forall i :: 0 <= i < |pairs| ==> pairs[i].0 != k
    ensures (k in Updated(m, pairs) <==> k in m) && (k in m ==> Updated(m, pairs)[k] == m[k])
  {
    if pairs != [] { UpdatedOther(m, pairs[..|pairs| - 1], k); }
  }

  /** The last pair of a key decides. */
  lemma {:induction false} UpdatedLast<K, V>(m: map<K, V>, pairs: seq<(K, V)>, j: nat)
    requires j < |pairs| && forall i :: j < i < |pairs| ==> pairs[i].0 != pairs[j].0
    ensures pairs[j].0 in Updated(m, pairs) && Updated(m, pairs)[pairs[j].0] == pairs[j].1
  {
    if j < |pairs| - 1 { UpdatedLast(m, pairs[..|pairs| - 1], j); }
  }

  /** Exactly the listed keys are gone. */
  lemma {:induction false} WithoutIs<K, V>(m: map<K, V>, keys: seq<K>)
    ensures Without(m, keys) == map k | k in m && k !in keys :: m[k]
  {
    if keys != [] {
      var n := |keys| - 1;
      WithoutIs(m, keys[..n]);
      assert keys == keys[..n] + [keys[n]];
    }
  }

  /** Tracked: the size is the sum, and within the limit unless few items are left. Count: within the limit. */
  ghost predicate Holds<K(!new), V>(p: PolicyInner, size: V -> nat, items: map<K, V>, tracked: nat)
  {
    && (p.tracked ==> tracked == TotalSize(size, items) && (tracked <= p.maxSize || |items| <= p.minItems))
    && (!p.tracked ==> |items| <= p.maxSize)
    && (p.maxSize == 0 ==> items == map[])
  }

  method InsertItem<K(==, !new), V>(p: PolicyInner, size: V -> nat, before: map<K, V>, tracked: nat, key: K, data: V)
    returns (items: map<K, V>, total: nat)
    requires p.maxSize > 0 && Holds(p, size, before, tracked)
    ensures Holds(p, size, items, total) && InsertsTo(p, size, before, key, data, items)
  {
    items, total := before, tracked;
    if p.tracked {
      total := InsertedTotal(size, before, tracked, key, data);
      items, total := EvictTracked(p, size, before[key := data], total);
    } else {
      items := InsertCounted(p, before, key, data);
    }
  }

  /** The tracked size once the new item has taken the place of the old one, if any. */
  method InsertedTotal<K(==), V>(size: V -> nat, items: map<K, V>, tracked: nat, key: K, data: V) returns (total: nat)
    requires tracked == TotalSize(size, items)
    ensures total == TotalSize(size, items[key := data])
  {
    TotalPutsIn(size, items, key, data);
    total := tracked + size(data);
    if key in items {
      ItemFits(size, items, key);
      TotalTakesOut(size, items, key);
      total := total - size(items[key]);
    } else {
      assert items - {key} == items;
    }
  }

  method InsertCounted<K(==, !new), V>(p: PolicyInner, before: map<K, V>, key: K, data: V) returns (items: map<K, V>)
    requires p.maxSize > 0 && |before| <= p.maxSize
    ensures |items| <= p.maxSize
    ensures if |before| == p.maxSize then exists k :: k in before && items == (before - {k})[key := data]
            else items == before[key := data]
  {
    items := before;
    if |items| == p.maxSize {
      assert |items.Keys| > 0;
      var k :| k in items.Keys;
      items := items - {k};
    }
    items := items[key := data];
  }

  method InsertPair<K(==, !new), V>(p: PolicyInner, size: V -> nat, before: map<K, V>, tracked: nat, pair: (K, V))
    returns (items: map<K, V>, total: nat)
    requires p.maxSize > 0 && Holds(p, size, before, tracked)
    ensures Holds(p, size, items, total) && Leads(p, size, before, pair, items)
  {
    items, total := InsertItem(p, size, before, tracked, pair.0, pair.1);
  }

  method InsertItems<K(==, !new), V(!new)>(
    p: PolicyInner, size: V -> nat, before: map<K, V>, tracked: nat, pairs: seq<(K, V)>)
    returns (items: map<K, V>, total: nat)
    requires p.maxSize > 0 && Holds(p, size, before, tracked)
    ensures Holds(p, size, items, total) && InsertsAllTo(p, size, before, pairs, items)
  {
    items, total := before, tracked;
    for i := 0 to |pairs|
      invariant Holds(p, size, items, total) && InsertsAllTo(p, size, before, pairs[..i], items)
    {
      var next, sum := InsertPair(p, size, items, total, pairs[i]);
      InsertsOneMore(p, size, before, pairs, i, items, next);
      items, total := next, sum;
    }
    assert pairs[..|pairs|] == pairs;
  }

  class Cache<K(==, !new), V(!new)> {
    const policy: PolicyInner
    const size: V -> nat
    var items: map<K, V>
    var trackedSize: nat

    ghost predicate Valid()
      reads this
    {
      Holds(policy, size, items, trackedSize)
    }

    constructor (p: CachePolicy, s: V -> nat)
      ensures Valid() && items == map[] && policy == Inner(p) && size == s
      ensures policy.tracked <==> p.Tracked?
      ensures policy.maxSize == if p.Empty? then 0 else p.limit
      ensures p.Tracked? ==> policy.minItems == p.least
    {
      policy := Inner(p);
      size := s;
      items := map[];
      trackedSize := 0;
    }

    /** Takes out items of its own choice until the policy is met; does nothing when it is. */
    method TrackedEvict()
      requires policy.tracked && trackedSize == TotalSize(size, items)
      modifies `items, `trackedSize
      ensures trackedSize == TotalSize(size, items) && EvictsTo(policy, size, old(items), items)
    {
      items, trackedSize := EvictTracked(policy, size, items, trackedSize);
    }

    /** Inserts and evicts; nothing is evicted while the policy allows all items. */
    method Insert(key: K, data: V)
      requires Valid()
      modifies `items, `trackedSize
      ensures Valid() && InsertsTo(policy, size, old(items), key, data, items)
      ensures Within(items, old(items)[key := data])
      ensures policy.maxSize > 0 && !policy.tracked ==> key in items && items[key] == data
      ensures policy.maxSize > 0 && !policy.tracked && |old(items)| < policy.maxSize ==> items == old(items)[key := data]
      ensures policy.maxSize > 0 && policy.tracked && TotalSize(size, old(items)[key := data]) <= policy.maxSize ==>
        items == old(items)[key := data]
    {
      if policy.maxSize == 0 {
        return;
      }
      items, trackedSize := InsertItem(policy, size, items, trackedSize, key, data);
      InsertedOne(policy, size, old(items), key, data, items);
    }

    method InsertMany(pairs: seq<(K, V)>)
      requires Valid()
      modifies `items, `trackedSize
      ensures Valid() && InsertsAllTo(policy, size, old(items), pairs, items)
      ensures Within(items, Updated(old(items), pairs))
      ensures policy.maxSize > 0 && RoomForAll(policy, size, old(items), pairs) ==> items == Updated(old(items), pairs)
    {
      if policy.maxSize == 0 {
        SkipAll(policy, size, items, pairs);
        return;
      }
      items, trackedSize := InsertItems(policy, size, items, trackedSize, pairs);
      InsertedAll(policy, size, old(items), pairs, items);
    }

    method RemoveMany(keys: seq<K>)
      requires Valid()
      modifies `items, `trackedSize
      ensures Valid() && items == Without(old(items), keys)
    {
      if policy.maxSize == 0 {
        WithoutEmpty(items, keys);
        return;
      }
      for i := 0 to |keys|
        invariant Valid() && items == Without(old(items), keys[..i])
      {
        WithoutOneMore(old(items), keys, i);
        var _ := Remove(keys[i]);
      }
      assert keys[..|keys|] == keys;
    }

    /** Changes an item in place if it is there. */
    method UpdateIfEntryExists(key: K, op: V -> V)
      requires Valid()
      modifies `items, `trackedSize
      ensures Valid()
      ensures key !in old(items) ==> items == old(items)
      ensures key in old(items) ==> ChangesTo(policy, size, old(items), key, op(old(items)[key]), items)
      ensures key in old(items) ==> Within(items, old(items)[key := op(old(items)[key])])
      ensures key in old(items) && !policy.tracked ==> items == old(items)[key := op(old(items)[key])]
      ensures key in old(items) && policy.tracked && TotalSize(size, old(items)[key := op(old(items)[key])]) <= policy.maxSize
        ==> items == old(items)[key := op(old(items)[key])]
      ensures key in old(items) && policy.tracked ==>
        NoNeedlessEviction(policy, size, old(items)[key := op(old(items)[key])], items)
    {
      if policy.maxSize == 0 || key !in items {
        return;
      }
      var data := op(items[key]);
      if policy.tracked {
        ItemFits(size, items, key);
        TotalTakesOut(size, items, key);
        TotalPutsIn(size, items, key, data);
        trackedSize := trackedSize - size(items[key]);
        items := items[key := data];
        trackedSize := trackedSize + size(data);
        TrackedEvict();
      } else {
        assert items[key := data].Keys == items.Keys;
        items := items[key := data];
      }
    }

    method Remove(key: K) returns (removed: Option<V>)
      requires Valid()
      modifies `items, `trackedSize
      ensures Valid() && items == old(items) - {key}
      ensures removed == if key in old(items) then Some(old(items)[key]) else None
    {
      if policy.maxSize == 0 || key !in items {
        assert items - {key} == items;
        return None;
      }
      removed := Some(items[key]);
      if policy.tracked {
        ItemFits(size, items, key);
        TotalTakesOut(size, items, key);
        trackedSize := trackedSize - size(items[key]);
      }
      items := items - {key};
    }

    method RemoveAll()
      requires Valid()
      modifies `items, `trackedSize
      ensures Valid() && items == map[]
    {
      if policy.maxSize == 0 {
        return;
      }
      items := map[];
      if policy.tracked {
        trackedSize := 0;
      }
    }
  }
}
