/** The multiplicative set hash: a fraction that elements are multiplied into. */
module MuHash {
  import opened CommutativeGroup

  datatype MuHash<G> = MuHash(numerator: G, denominator: G)

  function New<G>(g: Group<G>): MuHash<G>
  {
    MuHash(g.one, g.one)
  }

  function AddElement<G>(g: Group<G>, m: MuHash<G>, e: G): MuHash<G>
  {
    m.(numerator := g.mul(m.numerator, e))
  }

  function RemoveElement<G>(g: Group<G>, m: MuHash<G>, e: G): MuHash<G>
  {
    m.(denominator := g.mul(m.denominator, e))
  }

  function Combine<G>(g: Group<G>, m: MuHash<G>, n: MuHash<G>): MuHash<G>
  {
    MuHash(g.mul(m.numerator, n.numerator), g.mul(m.denominator, n.denominator))
  }

  function Normalize<G>(g: Group<G>, m: MuHash<G>): MuHash<G>
  {
    MuHash(g.mul(m.numerator, g.inv(m.denominator)), g.one)
  }

  /** The group element the fraction stands for; finalizing hashes its bytes. */
  function Value<G>(g: Group<G>, m: MuHash<G>): G
  {
    Normalize(g, m).numerator
  }

  /** Adding multiplies the value, removing divides it, normalizing leaves it alone. */
  lemma ValueAfter<G(!new)>(g: Group<G>, m: MuHash<G>, e: G)
    requires Lawful(g)
    ensures Value(g, New(g)) == g.one
    ensures Value(g, AddElement(g, m, e)) == g.mul(Value(g, m), e)
    ensures Value(g, RemoveElement(g, m, e)) == g.mul(Value(g, m), g.inv(e))
    ensures Value(g, Normalize(g, m)) == Value(g, m)
  {
    Inverse(g, g.one);
    SwapLast(g, m.numerator, e, g.inv(m.denominator));
    InverseOfProduct(g, m.denominator, e);
    Associates(g, m.numerator, g.inv(m.denominator), g.inv(e));
    InverseOfOne(g);
    Unit(g, Value(g, m));
  }

  /** An element added and removed again, in either order, leaves no trace. */
  lemma AddAndRemoveCancel<G(!new)>(g: Group<G>, m: MuHash<G>, e: G)
    requires Lawful(g)
    ensures Value(g, RemoveElement(g, AddElement(g, m, e), e)) == Value(g, m)
    ensures Value(g, AddElement(g, RemoveElement(g, m, e), e)) == Value(g, m)
  {
    ValueAfter(g, m, e);
    ValueAfter(g, AddElement(g, m, e), e);
    ValueAfter(g, RemoveElement(g, m, e), e);
    Cancel(g, Value(g, m), e);
  }

  // ---- histories ----

  datatype Step<G> = Added(element: G) | Removed(element: G) | Normalized

  function Run<G>(g: Group<G>, steps: seq<Step<G>>): MuHash<G>
  {
    if steps == [] then New(g)
    else
      var m := Run(g, steps[..|steps| - 1]);
      match steps[|steps| - 1]
      case Added(e) => AddElement(g, m, e)
      case Removed(e) => RemoveElement(g, m, e)
      case Normalized => Normalize(g, m)
  }

  function AddedIn<G>(steps: seq<Step<G>>): multiset<G>
  {
    if steps == [] then multiset{}
    else
      var last := steps[|steps| - 1];
      AddedIn(steps[..|steps| - 1]) + if last.Added? then multiset{last.element} else multiset{}
  }

  function RemovedIn<G>(steps: seq<Step<G>>): multiset<G>
  {
    if steps == [] then multiset{}
    else
      var last := steps[|steps| - 1];
      RemovedIn(steps[..|steps| - 1]) + if last.Removed? then multiset{last.element} else multiset{}
  }

  /** Whatever the order, the value is the product of what was added over the product of what was removed. */
  lemma {:induction false} RunValue<G(!new)>(g: Group<G>, steps: seq<Step<G>>)
    requires Lawful(g)
    ensures Value(g, Run(g, steps)) == g.mul(Total(g, AddedIn(steps)), g.inv(Total(g, RemovedIn(steps))))
  {
    if steps != [] {
      var init, last := steps[..|steps| - 1], steps[|steps| - 1];
      RunValue(g, init);
      var m := Run(g, init);
      var a, r := AddedIn(init), RemovedIn(init);
      match last
      case Added(e) =>
        ValueAfter(g, m, e);
        TotalAdd(g, a, e);
        SwapLast(g, Total(g, a), e, g.inv(Total(g, r)));
        assert RemovedIn(steps) == r;
      case Removed(e) =>
        ValueAfter(g, m, e);
        TotalAdd(g, r, e);
        InverseOfProduct(g, Total(g, r), e);
        Associates(g, Total(g, a), g.inv(Total(g, r)), g.inv(e));
        assert AddedIn(steps) == a;
      case Normalized =>
        ValueAfter(g, m, g.one);
        assert AddedIn(steps) == a && RemovedIn(steps) == r;
    } else {
      InverseOfOne(g);
    }
  }

  /** Two histories whose additions and removals balance give the same value. */
  lemma {:induction false} BalancedHistoriesAgree<G(!new)>(g: Group<G>, s: seq<Step<G>>, t: seq<Step<G>>)
    requires Lawful(g) && AddedIn(s) + RemovedIn(t) == AddedIn(t) + RemovedIn(s)
    ensures Value(g, Run(g, s)) == Value(g, Run(g, t))
  {
    RunValue(g, s);
    RunValue(g, t);
    TotalUnion(g, AddedIn(s), RemovedIn(t));
    TotalUnion(g, AddedIn(t), RemovedIn(s));
    EqualFractions(g, Total(g, AddedIn(s)), Total(g, RemovedIn(s)), Total(g, AddedIn(t)), Total(g, RemovedIn(t)));
  }

  /** Combining two accumulators is replaying one history after the other. */
  lemma CombineIsConcatenation<G(!new)>(g: Group<G>, s: seq<Step<G>>, t: seq<Step<G>>)
    requires Lawful(g)
    ensures Value(g, Combine(g, Run(g, s), Run(g, t))) == Value(g, Run(g, s + t))
  {
    var m, n := Run(g, s), Run(g, t);
    CombineMultiplies(g, m, n);
    RunValue(g, s);
    RunValue(g, t);
    RunValue(g, s + t);
    ConcatenatedCounts(s, t);
    var a, b := Total(g, AddedIn(s)), Total(g, AddedIn(t));
    var c, d := Total(g, RemovedIn(s)), Total(g, RemovedIn(t));
    TotalUnion(g, AddedIn(s), AddedIn(t));
    TotalUnion(g, RemovedIn(s), RemovedIn(t));
    FractionsMultiply(g, a, c, b, d);
  }

  lemma FractionsMultiply<G(!new)>(g: Group<G>, n: G, d: G, n': G, d': G)
    requires Lawful(g)
    ensures g.mul(g.mul(n, n'), g.inv(g.mul(d, d'))) == g.mul(g.mul(n, g.inv(d)), g.mul(n', g.inv(d')))
  {
    InverseOfProduct(g, d, d');
    Associates(g, g.mul(n, n'), g.inv(d), g.inv(d'));
    SwapLast(g, n, n', g.inv(d));
    Associates(g, g.mul(n, g.inv(d)), n', g.inv(d'));
  }

  lemma CombineMultiplies<G(!new)>(g: Group<G>, m: MuHash<G>, n: MuHash<G>)
    requires Lawful(g)
    ensures Value(g, Combine(g, m, n)) == g.mul(Value(g, m), Value(g, n))
  {
    FractionsMultiply(g, m.numerator, m.denominator, n.numerator, n.denominator);
  }

  lemma {:induction false} ConcatenatedCounts<G>(s: seq<Step<G>>, t: seq<Step<G>>)
    ensures AddedIn(s + t) == AddedIn(s) + AddedIn(t)
    ensures RemovedIn(s + t) == RemovedIn(s) + RemovedIn(t)
  {
    if t == [] {
      assert s + t == s;
    } else {
      var k := |t| - 1;
      ConcatenatedCounts(s, t[..k]);
      var st := s + t;
      assert st[..|st| - 1] == s + t[..k] && st[|st| - 1] == t[k];
      var a := if t[k].Added? then multiset{t[k].element} else multiset{};
      var r := if t[k].Removed? then multiset{t[k].element} else multiset{};
      assert AddedIn(st) == AddedIn(s + t[..k]) + a;
      assert RemovedIn(st) == RemovedIn(s + t[..k]) + r;
      Regroup(AddedIn(s), AddedIn(t[..k]), a);
      Regroup(RemovedIn(s), RemovedIn(t[..k]), r);
    }
  }

  lemma Regroup<G>(a: multiset<G>, b: multiset<G>, c: multiset<G>)
    ensures a + b + c == a + (b + c)
  {
  }
}
