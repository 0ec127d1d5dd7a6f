/** The total size of the items a cache holds. */
module CacheSizes {
  import opened CommutativeGroup

  ghost function Integers(): Group<int>
  {
    Group(0, (x: int, y: int) => x + y, (x: int) => -x)
  }

  ghost function Sizes<K, V>(size: V -> nat, m: map<K, V>): map<K, int>
  {
    map k | k in m :: size(m[k])
  }

  ghost function TotalSize<K, V>(size: V -> nat, m: map<K, V>): int
  {
    Product(Integers(), Sizes(size, m))
  }

  lemma TotalTakesOut<K, V>(size: V -> nat, m: map<K, V>, k: K)
    requires k in m
    ensures TotalSize(size, m - {k}) == TotalSize(size, m) - size(m[k])
  {
    assert Sizes(size, m - {k}) == Sizes(size, m) - {k};
    ProductTakes(Integers(), Sizes(size, m), k);
  }

  lemma TotalPutsIn<K, V>(size: V -> nat, m: map<K, V>, k: K, v: V)
    ensures TotalSize(size, m[k := v]) == TotalSize(size, m - {k}) + size(v)
  {
    TotalTakesOut(size, m[k := v], k);
    assert m[k := v] - {k} == m - {k};
  }

  lemma {:induction false} TotalIsNat<K, V>(size: V -> nat, m: map<K, V>)
    ensures TotalSize(size, m) >= 0
    decreases |m|
  {
    if m == map[] {
      assert Sizes(size, m) == map[];
    } else {
      var k := SomeKey(m);
      TotalIsNat(size, m - {k});
      TotalTakesOut(size, m, k);
    }
  }

  /** No item is larger than the total. */
  lemma ItemFits<K, V>(size: V -> nat, m: map<K, V>, k: K)
    requires k in m
    ensures size(m[k]) <= TotalSize(size, m)
  {
    TotalTakesOut(size, m, k);
    TotalIsNat(size, m - {k});
  }
}
