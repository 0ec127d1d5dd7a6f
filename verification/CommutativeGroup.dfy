/** A commutative group given by its operations, and products over finite maps and multisets. */
module CommutativeGroup {

  datatype Group<!G> = Group(one: G, mul: (G, G) -> G, inv: G -> G)

  // The laws are instantiated only where one of these marks is asserted.
  predicate On<G>(x: G) { true }
  predicate OnTwo<G>(x: G, y: G) { true }
  predicate OnThree<G>(x: G, y: G, z: G) { true }

  ghost predicate Lawful<G(!new)>(g: Group<G>)
  {
    && (forall x {:trigger On(x)} :: On(x) ==> g.mul(g.one, x) == x && g.mul(x, g.inv(x)) == g.one)
    && (forall x, y {:trigger OnTwo(x, y)} :: OnTwo(x, y) ==> g.mul(x, y) == g.mul(y, x))
    && (forall x, y, z {:trigger OnThree(x, y, z)} :: OnThree(x, y, z) ==> g.mul(g.mul(x, y), z) == g.mul(x, g.mul(y, z)))
  }

  lemma Unit<G(!new)>(g: Group<G>, x: G)
    requires Lawful(g)
    ensures g.mul(g.one, x) == x && g.mul(x, g.one) == x
  {
    assert On(x) && OnTwo(g.one, x);
  }

  lemma Inverse<G(!new)>(g: Group<G>, x: G)
    requires Lawful(g)
    ensures g.mul(x, g.inv(x)) == g.one && g.mul(g.inv(x), x) == g.one
  {
    assert On(x) && OnTwo(x, g.inv(x));
  }

  lemma Commutes<G(!new)>(g: Group<G>, x: G, y: G)
    requires Lawful(g)
    ensures g.mul(x, y) == g.mul(y, x)
  {
    assert OnTwo(x, y);
  }

  lemma Associates<G(!new)>(g: Group<G>, x: G, y: G, z: G)
    requires Lawful(g)
    ensures g.mul(g.mul(x, y), z) == g.mul(x, g.mul(y, z))
  {
    assert OnThree(x, y, z);
  }

  /** The last two factors change places. */
  lemma SwapLast<G(!new)>(g: Group<G>, x: G, y: G, z: G)
    requires Lawful(g)
    ensures g.mul(g.mul(x, y), z) == g.mul(g.mul(x, z), y)
  {
    Associates(g, x, y, z);
    Commutes(g, y, z);
    Associates(g, x, z, y);
  }

  lemma Cancel<G(!new)>(g: Group<G>, x: G, y: G)
    requires Lawful(g)
    ensures g.mul(g.mul(x, y), g.inv(y)) == x && g.mul(g.mul(x, g.inv(y)), y) == x
  {
    Associates(g, x, y, g.inv(y));
    Inverse(g, y);
    Unit(g, x);
    SwapLast(g, x, y, g.inv(y));
  }

  lemma CancelEqual<G(!new)>(g: Group<G>, x: G, y: G, z: G)
    requires Lawful(g) && g.mul(x, z) == g.mul(y, z)
    ensures x == y
  {
    Cancel(g, x, z);
    Cancel(g, y, z);
  }

  lemma InverseOfProduct<G(!new)>(g: Group<G>, x: G, y: G)
    requires Lawful(g)
    ensures g.inv(g.mul(x, y)) == g.mul(g.inv(x), g.inv(y))
  {
    var xy := g.mul(x, y);
    // (x' * y') * (x * y) == 1 == (x * y)' * (x * y)
    var p := g.mul(g.inv(x), g.inv(y));
    Associates(g, p, x, y);
    SwapLast(g, g.inv(x), g.inv(y), x);
    Inverse(g, x);
    Unit(g, g.inv(y));
    Inverse(g, y);
    Inverse(g, xy);
    CancelEqual(g, g.inv(xy), p, xy);
  }

  lemma InverseOfOne<G(!new)>(g: Group<G>)
    requires Lawful(g)
    ensures g.inv(g.one) == g.one
  {
    Inverse(g, g.one);
    Unit(g, g.inv(g.one));
  }

  /** Fractions are equal when their cross products are. */
  lemma EqualFractions<G(!new)>(g: Group<G>, n: G, d: G, n': G, d': G)
    requires Lawful(g) && g.mul(n, d') == g.mul(n', d)
    ensures g.mul(n, g.inv(d)) == g.mul(n', g.inv(d'))
  {
    Cancel(g, n', d);
    Cancel(g, n, d');
    SwapLast(g, n, d', g.inv(d));
    CancelEqual(g, g.mul(n, g.inv(d)), g.mul(n', g.inv(d')), d') by {
      Cancel(g, n', d');
    }
  }

  // ---- products over maps ----

  ghost function SomeKey<K, V>(m: map<K, V>): K
    requires m != map[]
    ensures SomeKey(m) in m
  {
    assert m.Keys != {};
    var k :| k in m.Keys;
    k
  }

  ghost function Product<K, G(!new)>(g: Group<G>, m: map<K, G>): G
    decreases |m|
  {
    if m == map[] then g.one
    else
      var k := SomeKey(m);
      assert |m - {k}| < |m|;
      g.mul(Product(g, m - {k}), m[k])
  }

  /** Any factor can be taken out. */
  lemma {:induction false} ProductTakes<K, G(!new)>(g: Group<G>, m: map<K, G>, k: K)
    requires Lawful(g) && k in m
    ensures Product(g, m) == g.mul(Product(g, m - {k}), m[k])
    decreases |m|
  {
    var j := SomeKey(m);
    if j != k {
      ProductTakes(g, m - {j}, k);
      ProductTakes(g, m - {k}, j);
      assert m - {j} - {k} == m - {k} - {j};
      SwapLast(g, Product(g, m - {j} - {k}), m[k], m[j]);
    }
  }

  lemma ProductInsert<K, G(!new)>(g: Group<G>, m: map<K, G>, k: K, x: G)
    requires Lawful(g) && k !in m
    ensures Product(g, m[k := x]) == g.mul(Product(g, m), x)
  {
    ProductTakes(g, m[k := x], k);
    assert m[k := x] - {k} == m;
  }

  lemma ProductRemove<K, G(!new)>(g: Group<G>, m: map<K, G>, k: K)
    requires Lawful(g) && k in m
    ensures Product(g, m - {k}) == g.mul(Product(g, m), g.inv(m[k]))
  {
    ProductTakes(g, m, k);
    Cancel(g, Product(g, m - {k}), m[k]);
  }

  /** Replacing a factor is dividing by the old one and multiplying by the new one. */
  lemma ProductReplace<K, G(!new)>(g: Group<G>, m: map<K, G>, k: K, x: G)
    requires Lawful(g) && k in m
    ensures Product(g, m[k := x]) == g.mul(g.mul(Product(g, m), g.inv(m[k])), x)
  {
    ProductRemove(g, m, k);
    ProductInsert(g, m - {k}, k, x);
    assert (m - {k})[k := x] == m[k := x];
  }

  // ---- products over multisets ----

  ghost function SomeElement<G>(s: multiset<G>): G
    requires s != multiset{}
    ensures SomeElement(s) in s
  {
    var x :| x in s;
    x
  }

  ghost function Total<G(!new)>(g: Group<G>, s: multiset<G>): G
    decreases |s|
  {
    if s == multiset{} then g.one
    else
      var x := SomeElement(s);
      g.mul(Total(g, s - multiset{x}), x)
  }

  lemma {:induction false} TotalTakes<G(!new)>(g: Group<G>, s: multiset<G>, x: G)
    requires Lawful(g) && x in s
    ensures Total(g, s) == g.mul(Total(g, s - multiset{x}), x)
    decreases |s|
  {
    var y := SomeElement(s);
    if y != x {
      TotalTakes(g, s - multiset{y}, x);
      TotalTakes(g, s - multiset{x}, y);
      assert s - multiset{y} - multiset{x} == s - multiset{x} - multiset{y};
      SwapLast(g, Total(g, s - multiset{y} - multiset{x}), x, y);
    }
  }

  lemma TotalAdd<G(!new)>(g: Group<G>, s: multiset<G>, x: G)
    requires Lawful(g)
    ensures Total(g, s + multiset{x}) == g.mul(Total(g, s), x)
  {
    TotalTakes(g, s + multiset{x}, x);
    assert s + multiset{x} - multiset{x} == s;
  }

  lemma {:induction false} TotalUnion<G(!new)>(g: Group<G>, s: multiset<G>, t: multiset<G>)
    requires Lawful(g)
    ensures Total(g, s + t) == g.mul(Total(g, s), Total(g, t))
    decreases |t|
  {
    if t == multiset{} {
      assert s + t == s;
      Unit(g, Total(g, s));
    } else {
      var x := SomeElement(t);
      var rest := t - multiset{x};
      TotalUnion(g, s, rest);
      TotalAdd(g, s + rest, x);
      assert s + rest + multiset{x} == s + t;
      TotalAdd(g, rest, x);
      assert rest + multiset{x} == t;
      Associates(g, Total(g, s), Total(g, rest), x);
    }
  }
}
