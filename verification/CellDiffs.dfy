/** Differences between cell states: applying, undoing and composing them. */
module CellDiffs {
  import PoolLedger

  type OutPoint = PoolLedger.OutPoint

  /** Cells created and cells consumed. */
  datatype CellDiff<M> = CellDiff(add: map<OutPoint, M>, remove: map<OutPoint, M>)

  function Reverse<M>(d: CellDiff<M>): CellDiff<M>
  {
    CellDiff(d.remove, d.add)
  }

  /** Consumed cells go first, then the created ones come in. */
  function ApplyTo<M>(d: CellDiff<M>, base: map<OutPoint, M>): map<OutPoint, M>
  {
    (base - d.remove.Keys) + d.add
  }

  /** Cell by cell: a created cell is live as created, any other is live as before unless it was consumed. */
  lemma AppliedAt<M>(d: CellDiff<M>, base: map<OutPoint, M>, x: OutPoint)
    ensures x in ApplyTo(d, base) <==> x in d.add || (x in base && x !in d.remove)
    ensures x in d.add ==> ApplyTo(d, base)[x] == d.add[x]
    ensures x !in d.add && x in base && x !in d.remove ==> ApplyTo(d, base)[x] == base[x]
  {
  }

  /** Only live cells are consumed, and only missing or just consumed ones are created. */
  ghost predicate FitsKeys<M>(d: CellDiff<M>, base: map<OutPoint, M>)
  {
    d.remove.Keys <= base.Keys && forall x :: x in d.add && x in base ==> x in d.remove
  }

  /** Consumed cells are moreover recorded as they were. */
  ghost predicate Fits<M>(d: CellDiff<M>, base: map<OutPoint, M>)
  {
    FitsKeys(d, base) && forall x :: x in d.remove ==> d.remove[x] == base[x]
  }

  /** No cell is both created and consumed. */
  predicate Plain<M>(d: CellDiff<M>)
  {
    d.add.Keys !! d.remove.Keys
  }

  /** Undoing a diff restores the state exactly when the diff fits it. */
  lemma RevertIff<M>(d: CellDiff<M>, base: map<OutPoint, M>)
    ensures ApplyTo(Reverse(d), ApplyTo(d, base)) == base <==> Fits(d, base)
  {
    var back := ApplyTo(Reverse(d), ApplyTo(d, base));
    if Fits(d, base) {
      assert back == base;
    }
    if back == base {
      forall x | x in d.remove ensures x in base && d.remove[x] == base[x] {
        assert back[x] == d.remove[x];
      }
      forall x | x in d.add && x in base ensures x in d.remove {
        assert x in back;
      }
    }
  }

  /** A plain diff that fits leaves the cells it keeps as they were. */
  lemma PlainKeepsBase<M>(d: CellDiff<M>, base: map<OutPoint, M>)
    requires Plain(d) && FitsKeys(d, base)
    ensures forall x :: x in base && x in ApplyTo(d, base) ==> ApplyTo(d, base)[x] == base[x]
  {
    forall x | x in base && x in ApplyTo(d, base) ensures ApplyTo(d, base)[x] == base[x] {
      assert x !in d.add.Keys * d.remove.Keys;
    }
  }

  // ---- composition ----

  function PendingRemoves<M>(d: CellDiff<M>, o: CellDiff<M>): map<OutPoint, M>
  {
    d.remove + (o.remove - d.add.Keys)
  }

  function PendingAdds<M>(d: CellDiff<M>, o: CellDiff<M>): map<OutPoint, M>
  {
    d.add - o.remove.Keys
  }

  predicate RemovesCompose<M>(d: CellDiff<M>, o: CellDiff<M>)
  {
    forall x :: x in o.remove ==> x in d.add || x !in d.remove
  }

  predicate Composable<M>(d: CellDiff<M>, o: CellDiff<M>)
  {
    && RemovesCompose(d, o)
    && forall x :: x in o.add ==> x in PendingRemoves(d, o) || x !in PendingAdds(d, o)
  }

  function Composed<M>(d: CellDiff<M>, o: CellDiff<M>): CellDiff<M>
  {
    var removes := PendingRemoves(d, o);
    CellDiff(PendingAdds(d, o) + (o.add - removes.Keys), removes - o.add.Keys)
  }

  /** Composition fails exactly on a cell consumed twice or created twice, with nothing in between. */
  lemma ComposableMeans<M>(d: CellDiff<M>, o: CellDiff<M>)
    ensures Composable(d, o) <==>
      && (forall x :: x in o.remove && x in d.remove ==> x in d.add)
      && (forall x :: x in o.add && x in d.add ==> x in o.remove || x in d.remove)
  {
  }

  /** The composed diff cell by cell. */
  lemma ComposedAt<M>(d: CellDiff<M>, o: CellDiff<M>, x: OutPoint)
    ensures var r := Composed(d, o);
            var again := x in o.remove && x !in d.add;
            && (x in r.remove <==> (x in d.remove || again) && x !in o.add)
            && (x in r.remove ==> r.remove[x] == if again then o.remove[x] else d.remove[x])
            && (x in r.add <==> (x in d.add && x !in o.remove) || (x in o.add && x !in d.remove && !again))
            && (x in r.add ==> r.add[x] == if x in o.add && x !in d.remove && !again then o.add[x] else d.add[x])
  {
  }

  /** Folds o into d cell by cell, in any order. */
  method WithDiffInPlace<M>(d: CellDiff<M>, o: CellDiff<M>) returns (ok: bool, r: CellDiff<M>)
    ensures ok <==> Composable(d, o)
    ensures ok ==> r == Composed(d, o)
  {
    var add, remove;
    ok, add, remove := Fold(d.add, d.remove, o.remove);
    r := CellDiff(add, remove);
    if ok {
      ok, remove, add := Fold(remove, add, o.add);
      r := CellDiff(add, remove);
    }
  }

  /** What is left of `from` and what `onto` has become while the cells of `todo` are still to be folded in. */
  ghost function Cancelled<M>(from: map<OutPoint, M>, more: map<OutPoint, M>, todo: set<OutPoint>): map<OutPoint, M>
  {
    from - (more.Keys - todo)
  }

  ghost function Extended<M>(
    from: map<OutPoint, M>, onto: map<OutPoint, M>, more: map<OutPoint, M>, todo: set<OutPoint>): map<OutPoint, M>
  {
    onto + (more - todo - from.Keys)
  }

  lemma FoldStart<M>(from: map<OutPoint, M>, onto: map<OutPoint, M>, more: map<OutPoint, M>)
    ensures Cancelled(from, more, more.Keys) == from && Extended(from, onto, more, more.Keys) == onto
    ensures Cancelled(from, more, {}) == from - more.Keys && Extended(from, onto, more, {}) == onto + (more - from.Keys)
  {
    assert more - {} == more;
  }

  lemma CancelOne<M>(from: map<OutPoint, M>, more: map<OutPoint, M>, todo: set<OutPoint>, x: OutPoint)
    requires x in todo && todo <= more.Keys
    ensures x in Cancelled(from, more, todo) <==> x in from
    ensures Cancelled(from, more, todo - {x}) == Cancelled(from, more, todo) - {x}
    ensures x !in from ==> Cancelled(from, more, todo - {x}) == Cancelled(from, more, todo)
  {
    assert more.Keys - (todo - {x}) == more.Keys - todo + {x};
  }

  lemma ExtendOne<M>(
    from: map<OutPoint, M>, onto: map<OutPoint, M>, more: map<OutPoint, M>, todo: set<OutPoint>, x: OutPoint)
    requires x in todo && todo <= more.Keys
    ensures x in Extended(from, onto, more, todo) <==> x in onto
    ensures Extended(from, onto, more, todo - {x}) ==
      if x in from then Extended(from, onto, more, todo) else Extended(from, onto, more, todo)[x := more[x]]
  {
    var rest := more - todo - from.Keys;
    assert more - (todo - {x}) - from.Keys == if x in from then rest else rest[x := more[x]];
  }

  /**
   * One of the two loops: a cell that `from` holds cancels out, one that only `onto` holds is an
   * error, and any other joins `onto`.
   */
  method Fold<M>(from: map<OutPoint, M>, onto: map<OutPoint, M>, more: map<OutPoint, M>)
    returns (ok: bool, from': map<OutPoint, M>, onto': map<OutPoint, M>)
    ensures ok <==> forall x :: x in more ==> x in from || x !in onto
    ensures ok ==> from' == from - more.Keys && onto' == onto + (more - from.Keys)
  {
    from', onto' := from, onto;
    var todo := more.Keys;
    FoldStart(from, onto, more);
    while todo != {}
      invariant todo <= more.Keys
      invariant from' == Cancelled(from, more, todo) && onto' == Extended(from, onto, more, todo)
      invariant forall x :: x in more && x !in todo ==> x in from || x !in onto
    {
      var x :| x in todo;
      CancelOne(from, more, todo, x);
      ExtendOne(from, onto, more, todo, x);
      todo := todo - {x};
      if x in from' {
        from' := from' - {x};
      } else if x in onto' {
        return false, from', onto';
      } else {
        onto' := onto'[x := more[x]];
      }
    }
    ok := true;
  }

  /** Same cells, and the same contents wherever the base has none of its own. */
  ghost predicate AgreeOutside<M>(base: map<OutPoint, M>, s: map<OutPoint, M>, t: map<OutPoint, M>)
  {
    s.Keys == t.Keys && forall x :: x in s && x !in base ==> s[x] == t[x]
  }

  lemma CompositionIsDefined<M>(d: CellDiff<M>, o: CellDiff<M>, base: map<OutPoint, M>)
    requires Plain(d) && FitsKeys(d, base) && FitsKeys(o, ApplyTo(d, base))
    ensures Composable(d, o)
  {
    var cur := ApplyTo(d, base);
    forall x | x in o.add ensures x in PendingRemoves(d, o) || x !in PendingAdds(d, o) {
      assert x in PendingAdds(d, o) ==> x in cur;
    }
  }

  /** Composing keeps the shape of a diff. */
  lemma CompositionFits<M>(d: CellDiff<M>, o: CellDiff<M>, base: map<OutPoint, M>)
    requires Plain(d) && FitsKeys(d, base) && FitsKeys(o, ApplyTo(d, base))
    ensures Plain(Composed(d, o)) && FitsKeys(Composed(d, o), base)
  {
    var r := Composed(d, o);
    forall x | x in r.add ensures x !in base && x !in r.remove {
      if x in d.add && x !in o.remove {
        assert x !in d.add.Keys * d.remove.Keys;
      } else {
        assert x in o.add && x !in PendingRemoves(d, o);
      }
    }
  }

  /** And it reaches the right cells. */
  lemma CompositionAgrees<M>(d: CellDiff<M>, o: CellDiff<M>, base: map<OutPoint, M>)
    requires Plain(d) && FitsKeys(d, base) && FitsKeys(o, ApplyTo(d, base))
    ensures AgreeOutside(base, ApplyTo(Composed(d, o), base), ApplyTo(o, ApplyTo(d, base)))
  {
    var once, both := ApplyTo(Composed(d, o), base), ApplyTo(o, ApplyTo(d, base));
    forall x ensures (x in once <==> x in both) && (x in once && x !in base ==> once[x] == both[x]) {
      assert x !in d.add.Keys * d.remove.Keys;
      assert x in d.add ==> x !in base;
    }
  }

  /** Composing is doing one after the other exactly when no cell of the base comes back changed. */
  lemma CompositionIff<M>(d: CellDiff<M>, o: CellDiff<M>, base: map<OutPoint, M>)
    requires Plain(d) && FitsKeys(d, base) && FitsKeys(o, ApplyTo(d, base))
    ensures ApplyTo(Composed(d, o), base) == ApplyTo(o, ApplyTo(d, base))
       <==> forall x :: x in o.add && x in base ==> o.add[x] == base[x]
  {
    CompositionFits(d, o, base);
    CompositionAgrees(d, o, base);
    PlainKeepsBase(d, base);
    PlainKeepsBase(Composed(d, o), base);
    var both := ApplyTo(o, ApplyTo(d, base));
    var once := ApplyTo(Composed(d, o), base);
    forall x | x in both && x in base ensures once[x] == base[x] && both[x] == if x in o.add then o.add[x] else base[x] {
    }
    if forall x :: x in o.add && x in base ==> o.add[x] == base[x] {
      assert once == both;
    }
    if once == both {
      forall x | x in o.add && x in base ensures o.add[x] == base[x] {
        assert x in both;
      }
    }
  }

  /** A cell consumed and created again with other contents: composing loses the new contents. */
  lemma CompositionKeepsStaleCell(x: OutPoint)
    ensures var base := map[x := 0];
            var d, o := CellDiff(map[], map[x := 0]), CellDiff(map[x := 1], map[]);
            && Plain(d) && Fits(d, base) && Fits(o, ApplyTo(d, base))
            && ApplyTo(o, ApplyTo(d, base)) == map[x := 1]
            && ApplyTo(Composed(d, o), base) == map[x := 0]
  {
    var d, o := CellDiff(map[], map[x := 0]), CellDiff(map[x := 1], map[]);
    assert PendingRemoves(d, o) == map[x := 0];
    assert Composed(d, o) == CellDiff(map[], map[]);
  }

  /** A plain diff followed by its reversal is no difference at all. */
  lemma ReversalCancels<M>(d: CellDiff<M>)
    requires Plain(d)
    ensures Composable(d, Reverse(d)) && Composed(d, Reverse(d)) == CellDiff(map[], map[])
  {
    assert forall x :: x in d.add ==> x !in d.remove.Keys;
    assert PendingRemoves(d, Reverse(d)) == d.remove;
    assert PendingAdds(d, Reverse(d)) == map[];
  }

  // ---- chains ----

  ghost predicate FitsAll<M>(ds: seq<CellDiff<M>>, base: map<OutPoint, M>)
  {
    ds == [] || (FitsAll(ds[..|ds| - 1], base) && Fits(ds[|ds| - 1], ApplyAll(ds[..|ds| - 1], base)))
  }

  function ApplyAll<M>(ds: seq<CellDiff<M>>, base: map<OutPoint, M>): map<OutPoint, M>
  {
    if ds == [] then base else ApplyTo(ds[|ds| - 1], ApplyAll(ds[..|ds| - 1], base))
  }

  /** Undoes the diffs from the last to the first. */
  function RevertAll<M>(ds: seq<CellDiff<M>>, top: map<OutPoint, M>): map<OutPoint, M>
  {
    if ds == [] then top else RevertAll(ds[..|ds| - 1], ApplyTo(Reverse(ds[|ds| - 1]), top))
  }

  function ComposeAll<M>(ds: seq<CellDiff<M>>): CellDiff<M>
  {
    if ds == [] then CellDiff(map[], map[]) else Composed(ComposeAll(ds[..|ds| - 1]), ds[|ds| - 1])
  }

  /** Each diff can be folded into what precedes it. */
  ghost predicate ComposableAll<M>(ds: seq<CellDiff<M>>)
  {
    ds == [] || (ComposableAll(ds[..|ds| - 1]) && Composable(ComposeAll(ds[..|ds| - 1]), ds[|ds| - 1]))
  }

  /** Rewinding a chain of fitting diffs gives back the state it started from. */
  lemma {:induction false} RewindRestores<M>(ds: seq<CellDiff<M>>, base: map<OutPoint, M>)
    requires FitsAll(ds, base)
    ensures RevertAll(ds, ApplyAll(ds, base)) == base
  {
    if ds != [] {
      var init, last := ds[..|ds| - 1], ds[|ds| - 1];
      RevertIff(last, ApplyAll(init, base));
      RewindRestores(init, base);
    }
  }

  lemma FitsKeysTransfers<M>(o: CellDiff<M>, base: map<OutPoint, M>, s: map<OutPoint, M>, t: map<OutPoint, M>)
    requires AgreeOutside(base, s, t) && FitsKeys(o, t)
    ensures FitsKeys(o, s) && AgreeOutside(base, ApplyTo(o, s), ApplyTo(o, t))
  {
  }

  lemma {:induction false} ChainComposes<M>(ds: seq<CellDiff<M>>, base: map<OutPoint, M>)
    requires FitsAll(ds, base)
    ensures ComposableAll(ds) && Plain(ComposeAll(ds)) && FitsKeys(ComposeAll(ds), base)
    ensures AgreeOutside(base, ApplyTo(ComposeAll(ds), base), ApplyAll(ds, base))
  {
    if ds == [] {
      assert ApplyTo(ComposeAll(ds), base) == base;
    } else {
      var init, last := ds[..|ds| - 1], ds[|ds| - 1];
      ChainComposes(init, base);
      FitsKeysTransfers(last, base, ApplyTo(ComposeAll(init), base), ApplyAll(init, base));
      CompositionIsDefined(ComposeAll(init), last, base);
      CompositionFits(ComposeAll(init), last, base);
      CompositionAgrees(ComposeAll(init), last, base);
    }
  }

  /** The composed chain gives the chain's result, except that a base cell live at the end keeps its old contents. */
  lemma {:induction false} ChainKeepsBase<M>(ds: seq<CellDiff<M>>, base: map<OutPoint, M>)
    requires FitsAll(ds, base)
    ensures ComposableAll(ds)
    ensures ApplyTo(ComposeAll(ds), base) ==
      map x | x in ApplyAll(ds, base) :: if x in base then base[x] else ApplyAll(ds, base)[x]
  {
    ChainComposes(ds, base);
    PlainKeepsBase(ComposeAll(ds), base);
  }

  // ---- the difference of two states ----

  function FromCollections<M>(before: map<OutPoint, M>, after: map<OutPoint, M>): CellDiff<M>
  {
    CellDiff(map x | x in after && x !in before :: after[x], map x | x in before && x !in after :: before[x])
  }

  /** It leads from one to the other exactly when they agree on the cells they share. */
  lemma FromCollectionsIff<M>(before: map<OutPoint, M>, after: map<OutPoint, M>)
    ensures var d := FromCollections(before, after); Plain(d) && Fits(d, before)
    ensures ApplyTo(FromCollections(before, after), before) == after
       <==> forall x :: x in before && x in after ==> before[x] == after[x]
  {
    var d := FromCollections(before, after);
    var r := ApplyTo(d, before);
    forall x | x in before && x in after ensures x in r && r[x] == before[x] {}
    if forall x :: x in before && x in after ==> before[x] == after[x] {
      assert r == after;
    }
  }
}
