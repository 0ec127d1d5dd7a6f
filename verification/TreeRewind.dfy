/** Moving the live-cell tree along a chain of diffs and back. */
module TreeRewind {
  import opened Bytes
  import opened CellDiffs
  import opened CellEntries
  import opened CellStateTree
  import opened Hashes
  import opened Outcomes
  import opened StateRoot

  type Diff = CellDiff<CellEntry>

  /** Every cell is stored under the hash of its outpoint. */
  ghost predicate Keyed(hashOf: OutPoint -> Hash, cells: map<Hash, CellEntry>, byHash: map<Hash, OutPoint>)
  {
    byHash.Keys == cells.Keys && forall h :: h in byHash ==> hashOf(byHash[h]) == h
  }

  ghost predicate CollisionFree(hashOf: OutPoint -> Hash, s: set<OutPoint>)
  {
    forall x, y :: x in s && y in s && hashOf(x) == hashOf(y) ==> x == y
  }

  /** The live cells by outpoint. */
  ghost function View(cells: map<Hash, CellEntry>, hashes: map<OutPoint, Hash>): map<OutPoint, CellEntry>
  {
    map o | o in hashes && hashes[o] in cells :: cells[hashes[o]]
  }

  /** The view determines what is stored, so equal views have equal roots. */
  lemma ViewDetermines(
    hashOf: OutPoint -> Hash,
    cells: map<Hash, CellEntry>, byHash: map<Hash, OutPoint>, hashes: map<OutPoint, Hash>,
    cells': map<Hash, CellEntry>, byHash': map<Hash, OutPoint>, hashes': map<OutPoint, Hash>)
    requires Keyed(hashOf, cells, byHash) && InverseMaps(byHash, hashes)
    requires Keyed(hashOf, cells', byHash') && InverseMaps(byHash', hashes')
    requires View(cells, hashes) == View(cells', hashes')
    ensures cells == cells' && byHash == byHash'
  {
    forall h ensures h in cells ==> h in cells' && cells[h] == cells'[h] && byHash[h] == byHash'[h] {
      StoredUnder(hashOf, cells, byHash, hashes, cells', byHash', hashes', h);
    }
    forall h ensures h in cells' ==> h in cells {
      StoredUnder(hashOf, cells', byHash', hashes', cells, byHash, hashes, h);
    }
  }

  lemma StoredUnder(
    hashOf: OutPoint -> Hash,
    cells: map<Hash, CellEntry>, byHash: map<Hash, OutPoint>, hashes: map<OutPoint, Hash>,
    cells': map<Hash, CellEntry>, byHash': map<Hash, OutPoint>, hashes': map<OutPoint, Hash>, h: Hash)
    requires Keyed(hashOf, cells, byHash) && InverseMaps(byHash, hashes)
    requires Keyed(hashOf, cells', byHash') && InverseMaps(byHash', hashes')
    requires View(cells, hashes) == View(cells', hashes')
    ensures h in cells ==> h in cells' && cells[h] == cells'[h] && byHash[h] == byHash'[h]
  {
    if h in cells {
      var o := byHash[h];
      assert o in View(cells, hashes) && View(cells, hashes)[o] == cells[h];
      assert o in View(cells', hashes');
      assert hashOf(byHash'[hashes'[o]]) == hashes'[o];
    }
  }

  /** An outpoint is indexed exactly when its hash leads back to it. */
  lemma IndexedUnderHash(
    hashOf: OutPoint -> Hash, cells: map<Hash, CellEntry>, byHash: map<Hash, OutPoint>, hashes: map<OutPoint, Hash>,
    x: OutPoint)
    requires Keyed(hashOf, cells, byHash) && InverseMaps(byHash, hashes)
    ensures x in hashes <==> hashOf(x) in byHash && byHash[hashOf(x)] == x
    ensures x in hashes ==> hashes[x] == hashOf(x) && x in View(cells, hashes) && View(cells, hashes)[x] == cells[hashOf(x)]
  {
    if x in hashes {
      assert byHash[hashes[x]] == x;
      assert hashOf(byHash[hashes[x]]) == hashes[x];
    }
  }

  lemma RemoveAt(
    hashOf: OutPoint -> Hash, cells: map<Hash, CellEntry>, byHash: map<Hash, OutPoint>, hashes: map<OutPoint, Hash>,
    hashes': map<OutPoint, Hash>, o: OutPoint, x: OutPoint)
    requires Keyed(hashOf, cells, byHash) && InverseMaps(byHash, hashes)
    requires x in hashes && hashOf(x) == hashOf(o) ==> x == o
    requires InverseMaps(byHash - {hashOf(o)}, hashes')
    ensures x in hashes' <==> x in hashes && x != o
    ensures KeptAt(View(cells, hashes), View(cells - {hashOf(o)}, hashes'), o, x)
  {
    IndexedUnderHash(hashOf, cells, byHash, hashes, x);
    IndexedUnderHash(hashOf, cells - {hashOf(o)}, byHash - {hashOf(o)}, hashes', x);
  }

  lemma ViewRemove(
    hashOf: OutPoint -> Hash, cells: map<Hash, CellEntry>, byHash: map<Hash, OutPoint>, hashes: map<OutPoint, Hash>,
    hashes': map<OutPoint, Hash>, o: OutPoint)
    requires Keyed(hashOf, cells, byHash) && InverseMaps(byHash, hashes)
    requires CollisionFree(hashOf, hashes.Keys + {o})
    requires InverseMaps(byHash - {hashOf(o)}, hashes')
    ensures View(cells - {hashOf(o)}, hashes') == View(cells, hashes) - {o}
  {
    var v, w := View(cells, hashes), View(cells - {hashOf(o)}, hashes');
    forall x ensures KeptAt(v, w, o, x) {
      RemoveAt(hashOf, cells, byHash, hashes, hashes', o, x);
    }
    KeptElsewhere(v, w, o);
  }

  ghost predicate KeptAt(v: map<OutPoint, CellEntry>, w: map<OutPoint, CellEntry>, o: OutPoint, x: OutPoint)
  {
    (x in w <==> x in v && x != o) && (x in w ==> w[x] == v[x])
  }

  lemma KeptElsewhere(v: map<OutPoint, CellEntry>, w: map<OutPoint, CellEntry>, o: OutPoint)
    requires forall x :: KeptAt(v, w, o, x)
    ensures w == v - {o}
  {
    assert w.Keys == (v - {o}).Keys by {
      forall x ensures x in w.Keys <==> x in (v - {o}).Keys { assert KeptAt(v, w, o, x); }
    }
    forall x | x in w ensures w[x] == (v - {o})[x] { assert KeptAt(v, w, o, x); }
  }

  lemma InsertAt(
    hashOf: OutPoint -> Hash, cells: map<Hash, CellEntry>, byHash: map<Hash, OutPoint>, hashes: map<OutPoint, Hash>,
    hashes': map<OutPoint, Hash>, o: OutPoint, e: CellEntry, x: OutPoint)
    requires Keyed(hashOf, cells, byHash) && InverseMaps(byHash, hashes)
    requires x in hashes && hashOf(x) == hashOf(o) ==> x == o
    requires InverseMaps(byHash[hashOf(o) := o], hashes')
    ensures x in hashes' <==> x in hashes || x == o
    ensures UpdatedAt(View(cells, hashes), View(cells[hashOf(o) := e], hashes'), o, e, x)
  {
    IndexedUnderHash(hashOf, cells, byHash, hashes, x);
    IndexedUnderHash(hashOf, cells[hashOf(o) := e], byHash[hashOf(o) := o], hashes', x);
  }

  lemma ViewInsert(
    hashOf: OutPoint -> Hash, cells: map<Hash, CellEntry>, byHash: map<Hash, OutPoint>, hashes: map<OutPoint, Hash>,
    hashes': map<OutPoint, Hash>, o: OutPoint, e: CellEntry)
    requires Keyed(hashOf, cells, byHash) && InverseMaps(byHash, hashes)
    requires CollisionFree(hashOf, hashes.Keys + {o})
    requires InverseMaps(byHash[hashOf(o) := o], hashes')
    ensures View(cells[hashOf(o) := e], hashes') == View(cells, hashes)[o := e]
  {
    var v, w := View(cells, hashes), View(cells[hashOf(o) := e], hashes');
    forall x ensures UpdatedAt(v, w, o, e, x) {
      InsertAt(hashOf, cells, byHash, hashes, hashes', o, e, x);
    }
    UpdatedEverywhere(v, w, o, e);
  }

  ghost predicate UpdatedAt(
    v: map<OutPoint, CellEntry>, w: map<OutPoint, CellEntry>, o: OutPoint, e: CellEntry, x: OutPoint)
  {
    (x in w <==> x in v || x == o) && (x in w ==> w[x] == if x == o then e else v[x])
  }

  lemma UpdatedEverywhere(v: map<OutPoint, CellEntry>, w: map<OutPoint, CellEntry>, o: OutPoint, e: CellEntry)
    requires forall x :: UpdatedAt(v, w, o, e, x)
    ensures w == v[o := e]
  {
    assert w.Keys == v[o := e].Keys by {
      forall x ensures x in w.Keys <==> x in v[o := e].Keys { assert UpdatedAt(v, w, o, e, x); }
    }
    forall x | x in w ensures w[x] == v[o := e][x] { assert UpdatedAt(v, w, o, e, x); }
  }

  lemma NothingEvicted(hashOf: OutPoint -> Hash, cells: map<Hash, CellEntry>, byHash: map<Hash, OutPoint>, o: OutPoint)
    requires Keyed(hashOf, cells, byHash)
    ensures Evicted(byHash, hashOf(o), o) == {}
  {
  }

  // ---- on the tree ----

  /** The tree holds the cells of `view`, each under the hash of its outpoint. */
  ghost predicate Holds<G(!new)>(tree: CellStateTree<G>, hashOf: OutPoint -> Hash, view: map<OutPoint, CellEntry>)
    reads tree
  {
    && tree.Valid()
    && Keyed(hashOf, tree.cells, tree.outpointsByHash)
    && View(tree.cells, tree.outpointHashes) == view
  }

  lemma HeldOutpoints<G(!new)>(tree: CellStateTree<G>, hashOf: OutPoint -> Hash, view: map<OutPoint, CellEntry>)
    requires Holds(tree, hashOf, view)
    ensures tree.outpointHashes.Keys == view.Keys
  {
    forall x | x in tree.outpointHashes ensures x in view {
      IndexedUnderHash(hashOf, tree.cells, tree.outpointsByHash, tree.outpointHashes, x);
    }
  }

  /** Trees that hold the same cells have the same root, whatever led to them. */
  lemma SameViewSameRoot<G(!new)>(
    s: CellStateTree<G>, t: CellStateTree<G>, hashOf: OutPoint -> Hash, view: map<OutPoint, CellEntry>)
    requires Holds(s, hashOf, view) && Holds(t, hashOf, view) && s.scheme == t.scheme
    ensures s.cells == t.cells && RootOf(s.scheme, s.cells) == RootOf(t.scheme, t.cells)
  {
    ViewDetermines(hashOf, s.cells, s.outpointsByHash, s.outpointHashes, t.cells, t.outpointsByHash, t.outpointHashes);
  }

  method RemoveOutpoint<G(!new)>(
    tree: CellStateTree<G>, hashOf: OutPoint -> Hash, o: OutPoint, ghost view: map<OutPoint, CellEntry>)
    requires Holds(tree, hashOf, view) && CollisionFree(hashOf, view.Keys + {o})
    modifies tree
    ensures Holds(tree, hashOf, view - {o})
  {
    HeldOutpoints(tree, hashOf, view);
    ghost var cells, byHash, hashes := tree.cells, tree.outpointsByHash, tree.outpointHashes;
    var _ := tree.Remove(hashOf(o));
    ViewRemove(hashOf, cells, byHash, hashes, tree.outpointHashes, o);
  }

  method InsertOutpoint<G(!new)>(
    tree: CellStateTree<G>, hashOf: OutPoint -> Hash, o: OutPoint, e: CellEntry, ghost view: map<OutPoint, CellEntry>)
    requires Holds(tree, hashOf, view) && CollisionFree(hashOf, view.Keys + {o})
    modifies tree
    ensures Holds(tree, hashOf, view[o := e])
  {
    HeldOutpoints(tree, hashOf, view);
    ghost var cells, byHash, hashes := tree.cells, tree.outpointsByHash, tree.outpointHashes;
    NothingEvicted(hashOf, cells, byHash, o);
    tree.InsertWithOutpoint(hashOf(o), o, e);
    InsertedInto(hashOf, cells, byHash, o, e);
    ViewInsert(hashOf, cells, byHash, hashes, tree.outpointHashes, o, e);
  }

  lemma InsertedInto(
    hashOf: OutPoint -> Hash, cells: map<Hash, CellEntry>, byHash: map<Hash, OutPoint>, o: OutPoint, e: CellEntry)
    requires Keyed(hashOf, cells, byHash)
    ensures cells - {} == cells && byHash - {} == byHash
    ensures Keyed(hashOf, cells[hashOf(o) := e], byHash[hashOf(o) := o])
  {
  }

  lemma FewerCollisions(hashOf: OutPoint -> Hash, small: set<OutPoint>, large: set<OutPoint>)
    requires CollisionFree(hashOf, large) && small <= large
    ensures CollisionFree(hashOf, small)
  {
  }

  method RemoveAll<G(!new)>(
    tree: CellStateTree<G>, hashOf: OutPoint -> Hash, keys: set<OutPoint>, ghost view: map<OutPoint, CellEntry>)
    requires Holds(tree, hashOf, view) && CollisionFree(hashOf, view.Keys + keys)
    modifies tree
    ensures Holds(tree, hashOf, view - keys)
  {
    var todo := keys;
    RemovedStart(view, keys);
    while todo != {}
      invariant todo <= keys && Holds(tree, hashOf, Removed(view, keys, todo))
    {
      var o :| o in todo;
      RemovedStep(hashOf, view, keys, todo, o);
      RemoveOutpoint(tree, hashOf, o, Removed(view, keys, todo));
      todo := todo - {o};
    }
  }

  /** What is left while the outpoints of `todo` are still to be removed. */
  ghost function Removed(
    view: map<OutPoint, CellEntry>, keys: set<OutPoint>, todo: set<OutPoint>): map<OutPoint, CellEntry>
  {
    view - (keys - todo)
  }

  lemma RemovedStart(view: map<OutPoint, CellEntry>, keys: set<OutPoint>)
    ensures Removed(view, keys, keys) == view && Removed(view, keys, {}) == view - keys
  {
  }

  lemma RemovedStep(
    hashOf: OutPoint -> Hash, view: map<OutPoint, CellEntry>, keys: set<OutPoint>, todo: set<OutPoint>, o: OutPoint)
    requires o in todo && todo <= keys && CollisionFree(hashOf, view.Keys + keys)
    ensures Removed(view, keys, todo) - {o} == Removed(view, keys, todo - {o})
    ensures CollisionFree(hashOf, Removed(view, keys, todo).Keys + {o})
  {
  }

  ghost function Inserted(
    view: map<OutPoint, CellEntry>, more: map<OutPoint, CellEntry>, todo: set<OutPoint>): map<OutPoint, CellEntry>
  {
    view + (more - todo)
  }

  lemma InsertedStart(view: map<OutPoint, CellEntry>, more: map<OutPoint, CellEntry>)
    ensures Inserted(view, more, more.Keys) == view && Inserted(view, more, {}) == view + more
  {
    assert more - {} == more;
  }

  lemma InsertedStep(
    hashOf: OutPoint -> Hash, view: map<OutPoint, CellEntry>, more: map<OutPoint, CellEntry>, todo: set<OutPoint>,
    o: OutPoint)
    requires o in todo && todo <= more.Keys && CollisionFree(hashOf, view.Keys + more.Keys)
    ensures Inserted(view, more, todo)[o := more[o]] == Inserted(view, more, todo - {o})
    ensures CollisionFree(hashOf, Inserted(view, more, todo).Keys + {o})
  {
  }

  method InsertAll<G(!new)>(
    tree: CellStateTree<G>, hashOf: OutPoint -> Hash, more: map<OutPoint, CellEntry>,
    ghost view: map<OutPoint, CellEntry>)
    requires Holds(tree, hashOf, view) && CollisionFree(hashOf, view.Keys + more.Keys)
    modifies tree
    ensures Holds(tree, hashOf, view + more)
  {
    var todo := more.Keys;
    InsertedStart(view, more);
    while todo != {}
      invariant todo <= more.Keys && Holds(tree, hashOf, Inserted(view, more, todo))
    {
      var o :| o in todo;
      InsertedStep(hashOf, view, more, todo, o);
      InsertOutpoint(tree, hashOf, o, more[o], Inserted(view, more, todo));
      todo := todo - {o};
    }
  }

  /** Consumed cells leave the tree, created ones enter it. */
  method ApplyCellDiff<G(!new)>(
    tree: CellStateTree<G>, hashOf: OutPoint -> Hash, diff: Diff, ghost view: map<OutPoint, CellEntry>)
    requires Holds(tree, hashOf, view) && CollisionFree(hashOf, view.Keys + diff.add.Keys + diff.remove.Keys)
    modifies tree
    ensures Holds(tree, hashOf, ApplyTo(diff, view))
  {
    FewerCollisions(hashOf, view.Keys + diff.remove.Keys, view.Keys + diff.add.Keys + diff.remove.Keys);
    FewerCollisions(hashOf, (view - diff.remove.Keys).Keys + diff.add.Keys, view.Keys + diff.add.Keys + diff.remove.Keys);
    RemoveAll(tree, hashOf, diff.remove.Keys, view);
    InsertAll(tree, hashOf, diff.add, view - diff.remove.Keys);
  }

  /** Created cells leave the tree, consumed ones come back. */
  method RevertCellDiff<G(!new)>(
    tree: CellStateTree<G>, hashOf: OutPoint -> Hash, diff: Diff, ghost view: map<OutPoint, CellEntry>)
    requires Holds(tree, hashOf, view) && CollisionFree(hashOf, view.Keys + diff.add.Keys + diff.remove.Keys)
    modifies tree
    ensures Holds(tree, hashOf, ApplyTo(Reverse(diff), view))
  {
    FewerCollisions(hashOf, view.Keys + diff.add.Keys, view.Keys + diff.add.Keys + diff.remove.Keys);
    FewerCollisions(hashOf, (view - diff.add.Keys).Keys + diff.remove.Keys, view.Keys + diff.add.Keys + diff.remove.Keys);
    RemoveAll(tree, hashOf, diff.add.Keys, view);
    InsertAll(tree, hashOf, diff.remove, view - diff.add.Keys);
  }

  /** Every outpoint the diffs and the base speak of. */
  ghost function Mentioned(ds: seq<Diff>, base: map<OutPoint, CellEntry>): set<OutPoint>
  {
    if ds == [] then base.Keys else Mentioned(ds[..|ds| - 1], base) + ds[|ds| - 1].add.Keys + ds[|ds| - 1].remove.Keys
  }

  lemma {:induction false} ReachedIsMentioned(ds: seq<Diff>, base: map<OutPoint, CellEntry>)
    ensures ApplyAll(ds, base).Keys <= Mentioned(ds, base)
  {
    if ds != [] { ReachedIsMentioned(ds[..|ds| - 1], base); }
  }

  /** Each diff fits the state it applies to, and no two outpoints the diffs and the base speak of collide. */
  ghost predicate Rewindable(hashOf: OutPoint -> Hash, ds: seq<Diff>, base: map<OutPoint, CellEntry>)
  {
    FitsAll(ds, base) && CollisionFree(hashOf, Mentioned(ds, base))
  }

  /**
   * Walks the selected chain down from its tip, undoing the diff of every block: the tree ends up
   * holding the cells, and having the root, of the block the chain started from.
   */
  method SelectedChainCellTree<G(!new)>(tree: CellStateTree<G>, hashOf: OutPoint -> Hash, diffs: seq<Diff>,
                                        ghost base: map<OutPoint, CellEntry>)
    requires Rewindable(hashOf, diffs, base) && Holds(tree, hashOf, ApplyAll(diffs, base))
    modifies tree
    ensures Holds(tree, hashOf, base)
  {
    var i := |diffs|;
    assert diffs[..i] == diffs;
    while i > 0
      invariant 0 <= i <= |diffs| && Rewindable(hashOf, diffs[..i], base)
      invariant Holds(tree, hashOf, ApplyAll(diffs[..i], base))
    {
      ghost var now := ApplyAll(diffs[..i], base);
      i := i - 1;
      StepDown(hashOf, diffs, i, base);
      RevertCellDiff(tree, hashOf, diffs[i], now);
    }
  }

  lemma StepDown(hashOf: OutPoint -> Hash, diffs: seq<Diff>, i: nat, base: map<OutPoint, CellEntry>)
    requires i < |diffs| && Rewindable(hashOf, diffs[..i + 1], base)
    ensures var now, last := ApplyAll(diffs[..i + 1], base), diffs[i];
            && Rewindable(hashOf, diffs[..i], base)
            && CollisionFree(hashOf, now.Keys + last.add.Keys + last.remove.Keys)
            && ApplyTo(Reverse(last), now) == ApplyAll(diffs[..i], base)
  {
    var ds, init, last := diffs[..i + 1], diffs[..i], diffs[i];
    assert ds[..|ds| - 1] == init;
    ReachedIsMentioned(ds, base);
    FewerCollisions(hashOf, Mentioned(init, base), Mentioned(ds, base));
    FewerCollisions(hashOf, ApplyAll(ds, base).Keys + last.add.Keys + last.remove.Keys, Mentioned(ds, base));
    RevertIff(last, ApplyAll(init, base));
  }
}
