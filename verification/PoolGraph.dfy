/** The dependency graph between pool entries, as the list of entries determines it. */
module PoolGraph {
  import opened Hashes
  import opened Outcomes
  import opened PoolLedger

  predicate SpendsFrom(inputs: seq<OutPoint>, id: Hash)
  {
    exists i :: 0 <= i < |inputs| && inputs[i].txHash == id
  }

  /** The entries of l that produce an input. */
  function Producers(l: seq<Record>, inputs: seq<OutPoint>): set<Hash>
  {
    if |l| == 0 then {}
    else if SpendsFrom(inputs, Last(l).tx.id) then Producers(Init(l), inputs) + {Last(l).tx.wtxid}
    else Producers(Init(l), inputs)
  }

  /** The entries before h that produce one of its inputs. */
  function Parents(l: seq<Record>, h: Hash): set<Hash>
  {
    if |l| == 0 then {}
    else if Last(l).tx.wtxid == h then Producers(Init(l), Last(l).tx.inputs)
    else Parents(Init(l), h)
  }

  /** The entries after h that spend from the transaction id of h, oldest first. */
  function Children(l: seq<Record>, h: Hash, id: Hash): seq<Hash>
  {
    if |l| == 0 then []
    else if Has(Init(l), h) && SpendsFrom(Last(l).tx.inputs, id) then Children(Init(l), h, id) + [Last(l).tx.wtxid]
    else Children(Init(l), h, id)
  }

  /** The elements other than h, in order. */
  function Retain(s: seq<Hash>, h: Hash): seq<Hash>
  {
    if |s| == 0 then []
    else if Last(s) == h then Retain(Init(s), h)
    else Retain(Init(s), h) + [Last(s)]
  }

  lemma {:induction false} RetainMembers(s: seq<Hash>, h: Hash, x: Hash)
    ensures x in Retain(s, h) <==> x in s && x != h
  {
    if |s| > 0 {
      assert s == Init(s) + [Last(s)];
      RetainMembers(Init(s), h, x);
    }
  }

  lemma {:induction false} ParentsRemove(l: seq<Record>, w: Hash, h: Hash)
    requires DistinctIds(l) && h != w
    ensures Parents(Remove(l, w), h) == Parents(l, h) - {w}
  {
    if |l| > 0 {
      var init, last := Init(l), Last(l);
      ParentsRemove(init, w, h);
      assert Init(Remove(init, w) + [last]) == Remove(init, w);
      if last.tx.wtxid == h {
        ProducersRemove(init, w, last.tx.inputs);
      }
    }
  }

  lemma {:induction false} ProducersRemove(l: seq<Record>, w: Hash, inputs: seq<OutPoint>)
    requires DistinctIds(l)
    ensures Producers(Remove(l, w), inputs) == Producers(l, inputs) - {w}
  {
    if |l| > 0 {
      ProducersRemove(Init(l), w, inputs);
      var m := Remove(Init(l), w);
      assert Init(m + [Last(l)]) == m;
    }
  }

  lemma {:induction false} ChildrenRemove(l: seq<Record>, w: Hash, h: Hash, id: Hash)
    requires h != w
    ensures Children(Remove(l, w), h, id) == Retain(Children(l, h, id), w)
  {
    if |l| > 0 {
      var init, last := Init(l), Last(l);
      ChildrenRemove(init, w, h, id);
      RemoveHas(init, w, h);
      var c := Children(init, h, id);
      assert Init(c + [last.tx.wtxid]) == c;
      assert Init(Remove(init, w) + [last]) == Remove(init, w);
    }
  }

  lemma {:induction false} ProducersAre(l: seq<Record>, inputs: seq<OutPoint>, p: Hash)
    requires DistinctIds(l)
    ensures p in Producers(l, inputs) <==> Has(l, p) && SpendsFrom(inputs, Lookup(l, p).tx.id)
  {
    if |l| > 0 {
      NotBefore(l);
      ProducersAre(Init(l), inputs, p);
    }
  }

  lemma {:induction false} ParentsAreEntries(l: seq<Record>, p: Hash, h: Hash)
    requires DistinctIds(l)
    ensures p in Parents(l, h) ==> Has(l, p)
  {
    if |l| > 0 {
      ParentsAreEntries(Init(l), p, h);
      ProducersAre(Init(l), Last(l).tx.inputs, p);
    }
  }

  lemma {:induction false} ChildrenAreEntries(l: seq<Record>, h: Hash, id: Hash)
    requires DistinctIds(l)
    ensures forall k :: k in Children(l, h, id) ==> Has(l, k)
    ensures Distinct(Children(l, h, id))
    ensures !Has(l, h) ==> Children(l, h, id) == []
  {
    if |l| > 0 {
      ChildrenAreEntries(Init(l), h, id);
      NotBefore(l);
      var c := Children(Init(l), h, id);
      forall i | 0 <= i < |c| ensures c[i] != Last(l).tx.wtxid { assert c[i] in c; }
    }
  }

  /** Parents and children are the two readings of the same edges. */
  lemma {:induction false} EdgesAreMutual(l: seq<Record>, p: Hash, h: Hash)
    requires DistinctIds(l) && Has(l, p)
    ensures p in Parents(l, h) <==> h in Children(l, p, Lookup(l, p).tx.id)
  {
    var init, last, id := Init(l), Last(l), Lookup(l, p).tx.id;
    NotBefore(l);
    ParentsAreEntries(init, p, h);
    ChildrenAreEntries(init, p, id);
    ProducersAre(init, last.tx.inputs, p);
    if Has(init, p) { EdgesAreMutual(init, p, h); }
  }

  /** Dependents are listed in the order in which they were inserted. */
  lemma {:induction false} ChildrenInOrder(l: seq<Record>, h: Hash, id: Hash, i: nat, j: nat)
    requires DistinctIds(l) && i < j < |Children(l, h, id)|
    ensures var c := Children(l, h, id); Has(l, c[i]) && Has(l, c[j]) && Position(l, c[i]) < Position(l, c[j])
  {
    ChildrenAreEntries(l, h, id);
    var init, c := Init(l), Children(Init(l), h, id);
    ChildrenAreEntries(init, h, id);
    NotBefore(l);
    assert Children(l, h, id)[i] in Children(l, h, id) && Children(l, h, id)[j] in Children(l, h, id);
    assert i < |c| ==> c[i] in c;
    if j < |c| { ChildrenInOrder(init, h, id, i, j); }
  }

  /** Insertion order is a topological order: every dependency comes before its dependent. */
  lemma {:induction false} ParentsComeFirst(l: seq<Record>, p: Hash, h: Hash)
    requires DistinctIds(l) && p in Parents(l, h)
    ensures Has(l, p) && Has(l, h) && Position(l, p) < Position(l, h)
  {
    var init, last := Init(l), Last(l);
    NotBefore(l);
    ParentsAreEntries(init, p, h);
    ProducersAre(init, last.tx.inputs, p);
    if last.tx.wtxid != h { ParentsComeFirst(init, p, h); }
  }

  /** Each id depends directly on the next. */
  /** An entry depends on another exactly when that one came before and one of its inputs names that one's transaction. */
  lemma {:induction false} DependencyIff(l: seq<Record>, i: nat, j: nat)
    requires DistinctIds(l) && i < |l| && j < |l|
    ensures l[i].tx.wtxid in Parents(l, l[j].tx.wtxid) <==>
      i < j && exists k :: 0 <= k < |l[j].tx.inputs| && l[j].tx.inputs[k].txHash == l[i].tx.id
  {
    var init := Init(l);
    NotBefore(l);
    if j < |init| && i < |init| {
      DependencyIff(init, i, j);
    } else if j < |init| {
      ParentsAreEntries(init, l[i].tx.wtxid, l[j].tx.wtxid);
    } else {
      ProducersAre(init, l[j].tx.inputs, l[i].tx.wtxid);
      if i < |init| {
        assert init[i] in init;
        LookupSelf(init, init[i]);
      }
    }
  }

  predicate Chain(l: seq<Record>, path: seq<Hash>)
  {
    forall i :: 0 <= i < |path| - 1 ==> path[i + 1] in Parents(l, path[i])
  }

  lemma {:induction false} ChainsDescend(l: seq<Record>, path: seq<Hash>)
    requires DistinctIds(l) && |path| >= 2 && Chain(l, path)
    ensures Has(l, path[0]) && Has(l, Last(path)) && Position(l, Last(path)) < Position(l, path[0])
  {
    var init := Init(path);
    ParentsComeFirst(l, Last(path), Last(init));
    if |path| > 2 { ChainsDescend(l, init); }
  }

  /** No entry depends on itself, however indirectly. */
  lemma NoDependencyCycle(l: seq<Record>, path: seq<Hash>)
    requires DistinctIds(l) && |path| >= 2 && Chain(l, path)
    ensures path[0] != Last(path)
  {
    ChainsDescend(l, path);
  }

  // ---- ascending id lists ----

  predicate Ascending(s: seq<Hash>)
  {
    forall i, j :: 0 <= i < j < |s| ==> s[i] < s[j]
  }

  /** A set's elements in ascending order. */
  function Sorted(s: set<Hash>): (r: seq<Hash>)
    ensures Ascending(r) && Elements(r) == s
  {
    if s == {} then []
    else
      HasMaximum(s);
      var m: Hash :| IsMaximum(s, m);
      var rest := Sorted(s - {m});
      AscendingAppend(s, m, rest);
      rest + [m]
  }

  lemma {:induction false} AscendingAppend(s: set<Hash>, m: Hash, rest: seq<Hash>)
    requires IsMaximum(s, m) && Ascending(rest) && Elements(rest) == s - {m}
    ensures Ascending(rest + [m]) && Elements(rest + [m]) == s
  {
    assert forall i :: 0 <= i < |rest| ==> rest[i] in Elements(rest);
    ElementsAppend(rest, m);
  }

  predicate IsMaximum(s: set<Hash>, m: Hash)
  {
    m in s && forall x :: x in s ==> x <= m
  }

  lemma {:induction false} HasMaximum(s: set<Hash>)
    requires s != {}
    ensures exists m :: IsMaximum(s, m)
  {
    var y :| y in s;
    var rest := s - {y};
    if rest == {} {
      assert s == {y};
      assert IsMaximum(s, y);
    } else {
      HasMaximum(rest);
      var m :| IsMaximum(rest, m);
      assert forall x :: x in s ==> x == y || x in rest;
      assert IsMaximum(s, if y <= m then m else y);
    }
  }

  /** An ascending list is determined by its elements. */
  lemma {:induction false} AscendingUnique(s: seq<Hash>, t: seq<Hash>)
    requires Ascending(s) && Ascending(t) && Elements(s) == Elements(t)
    ensures s == t
  {
    assert |s| > 0 ==> s[0] in Elements(s);
    assert |t| > 0 ==> t[0] in Elements(t);
    if |s| > 0 && |t| > 0 {
      assert Last(s) in Elements(t) && Last(t) in Elements(s);
      assert Last(s) == Last(t);
      LastElement(s);
      LastElement(t);
      AscendingUnique(Init(s), Init(t));
      assert s == Init(s) + [Last(s)] && t == Init(t) + [Last(t)];
    }
  }

  lemma LastElement(s: seq<Hash>)
    requires Ascending(s) && |s| > 0
    ensures Elements(Init(s)) == Elements(s) - {Last(s)}
  {
    assert s == Init(s) + [Last(s)];
    ElementsAppend(Init(s), Last(s));
    assert Last(s) !in Init(s);
  }

  lemma {:induction false} RetainAscending(s: seq<Hash>, h: Hash)
    requires Ascending(s)
    ensures Ascending(Retain(s, h))
  {
    if |s| > 0 {
      var r := Retain(Init(s), h);
      RetainAscending(Init(s), h);
      forall i | 0 <= i < |r| ensures r[i] < Last(s) {
        RetainMembers(Init(s), h, r[i]);
      }
    }
  }

  lemma RetainElements(s: seq<Hash>, h: Hash)
    ensures Elements(Retain(s, h)) == Elements(s) - {h}
  {
    forall x ensures x in Retain(s, h) <==> x in s && x != h { RetainMembers(s, h, x); }
  }

  lemma RetainSorted(s: set<Hash>, h: Hash)
    ensures Retain(Sorted(s), h) == Sorted(s - {h})
  {
    RetainAscending(Sorted(s), h);
    RetainElements(Sorted(s), h);
    AscendingUnique(Retain(Sorted(s), h), Sorted(s - {h}));
  }
}
