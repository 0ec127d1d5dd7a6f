/** The live-cell tree: four maps, an incremental accumulator and a cached root. */
module CellStateTree {
  import opened Bytes
  import opened CellEntries
  import opened CommutativeGroup
  import opened Hashes
  import opened MuHash
  import opened Outcomes
  import opened StateRoot
  import PoolLedger

  type OutPoint = PoolLedger.OutPoint

  /** The two outpoint maps are inverse to each other. */
  ghost predicate InverseMaps(byHash: map<Hash, OutPoint>, hashes: map<OutPoint, Hash>)
  {
    && (forall h :: h in byHash ==> byHash[h] in hashes && hashes[byHash[h]] == h)
    && (forall o :: o in hashes ==> hashes[o] in byHash && byHash[hashes[o]] == o)
  }

  /** The outpoint maps are inverse to each other and name live cells only. */
  ghost predicate Indexed(byHash: map<Hash, OutPoint>, hashes: map<OutPoint, Hash>, cells: Cells)
  {
    InverseMaps(byHash, hashes) && byHash.Keys <= cells.Keys
  }

  /** The other key that holds the outpoint, if there is one. */
  ghost function Evicted(byHash: map<Hash, OutPoint>, h: Hash, o: OutPoint): set<Hash>
  {
    set k | k in byHash && byHash[k] == o && k != h
  }

  /** Records o for h in both maps; reports the key that held o before. */
  method InsertIndex(byHash: map<Hash, OutPoint>, hashes: map<OutPoint, Hash>, h: Hash, o: OutPoint)
    returns (byHash': map<Hash, OutPoint>, hashes': map<OutPoint, Hash>, previous: Option<Hash>)
    requires InverseMaps(byHash, hashes)
    ensures InverseMaps(byHash', hashes')
    ensures byHash' == (byHash - Evicted(byHash, h, o))[h := o]
    ensures Evicted(byHash, h, o) == (if previous.Some? then {previous.value} else {})
    ensures previous.Some? ==> previous.value in byHash && previous.value != h
  {
    IndexAfterInsert(byHash, hashes, h, o);
    byHash', hashes', previous := byHash, hashes, None;
    if h in byHash' {
      hashes' := hashes' - {byHash'[h]};
    }
    byHash' := byHash'[h := o];
    if o in hashes' && hashes'[o] != h {
      previous := Some(hashes'[o]);
      byHash' := byHash' - {hashes'[o]};
    } else {
      assert byHash' - {} == byHash';
    }
    hashes' := hashes'[o := h];
  }

  /** Forgets h in both maps. */
  method RemoveIndex(byHash: map<Hash, OutPoint>, hashes: map<OutPoint, Hash>, ghost cells: Cells, h: Hash)
    returns (byHash': map<Hash, OutPoint>, hashes': map<OutPoint, Hash>)
    requires Indexed(byHash, hashes, cells)
    ensures byHash' == byHash - {h} && Indexed(byHash', hashes', cells - {h})
  {
    byHash', hashes' := byHash, hashes;
    if h in byHash' {
      hashes' := hashes' - {byHash'[h]};
      byHash' := byHash' - {h};
    }
  }

  /** Leaf hashes and accumulator describe the cells. */
  ghost predicate Summed<G(!new)>(s: Scheme<G>, cells: Cells, leaves: map<Hash, Hash>, m: MuHash<G>)
  {
    && Lawful(s.group)
    && leaves.Keys == cells.Keys
    && (forall h :: h in cells ==> leaves[h] == s.leaf(h, cells[h]))
    && Value(s.group, m) == Content(s, cells)
  }

  /** Replaces the leaf of h in the accumulator. */
  method PutLeaf<G(!new)>(s: Scheme<G>, cells: Cells, leaves: map<Hash, Hash>, m: MuHash<G>, h: Hash, entry: CellEntry)
    returns (leaves': map<Hash, Hash>, m': MuHash<G>)
    requires Summed(s, cells, leaves, m)
    ensures Summed(s, cells[h := entry], leaves', m')
  {
    AccumulatorInsert(s, cells, m, h, entry);
    var leaf := s.leaf(h, entry);
    m' := m;
    if h in leaves {
      m' := RemoveElement(s.group, m', s.element(leaves[h]));
    }
    leaves' := leaves[h := leaf];
    m' := AddElement(s.group, m', s.element(leaf));
  }

  method TakeLeaf<G(!new)>(s: Scheme<G>, cells: Cells, leaves: map<Hash, Hash>, m: MuHash<G>, h: Hash)
    returns (leaves': map<Hash, Hash>, m': MuHash<G>)
    requires Summed(s, cells, leaves, m) && h in cells
    ensures Summed(s, cells - {h}, leaves', m')
  {
    AccumulatorRemove(s, cells, m, h);
    leaves', m' := leaves, m;
    if h in leaves' {
      m' := RemoveElement(s.group, m', s.element(leaves'[h]));
      leaves' := leaves' - {h};
    }
  }

  method TakeEvicted<G(!new)>(s: Scheme<G>, cells: Cells, leaves: map<Hash, Hash>, m: MuHash<G>, previous: Option<Hash>,
                              ghost evicted: set<Hash>)
    returns (cells': Cells, leaves': map<Hash, Hash>, m': MuHash<G>)
    requires Summed(s, cells, leaves, m)
    requires evicted == (if previous.Some? then {previous.value} else {}) && evicted <= cells.Keys
    ensures cells' == cells - evicted && Summed(s, cells', leaves', m')
  {
    cells', leaves', m' := cells, leaves, m;
    if previous.Some? {
      leaves', m' := TakeLeaf(s, cells, leaves, m, previous.value);
      cells' := cells - {previous.value};
    } else {
      assert cells - {} == cells;
    }
  }

  class CellStateTree<G(!new)> {
    const scheme: Scheme<G>
    var cells: map<Hash, CellEntry>
    var outpointsByHash: map<Hash, OutPoint>
    var outpointHashes: map<OutPoint, Hash>
    var leafHashes: map<Hash, Hash>
    var muhash: MuHash<G>
    var cachedRoot: Option<Hash>

    ghost predicate Valid()
      reads this
    {
      && Summed(scheme, cells, leafHashes, muhash)
      && (cachedRoot.Some? ==> cachedRoot.value == RootOf(scheme, cells))
      && Indexed(outpointsByHash, outpointHashes, cells)
    }

    constructor (s: Scheme<G>)
      requires Lawful(s.group)
      ensures Valid() && scheme == s && cells == map[] && outpointsByHash == map[]
    {
      scheme := s;
      cells := map[];
      outpointsByHash := map[];
      outpointHashes := map[];
      leafHashes := map[];
      muhash := New(s.group);
      cachedRoot := None;
      new;
      AccumulatorEmpty(s);
    }

    method Insert(h: Hash, entry: CellEntry)
      requires Valid()
      modifies this
      ensures Valid()
      ensures cells == old(cells)[h := entry] && outpointsByHash == old(outpointsByHash)
    {
      leafHashes, muhash := PutLeaf(scheme, cells, leafHashes, muhash, h, entry);
      cells := cells[h := entry];
      cachedRoot := None;
    }

    /** A key that held the outpoint before loses its cell. */
    method InsertWithOutpoint(h: Hash, o: OutPoint, entry: CellEntry)
      requires Valid()
      modifies this
      ensures Valid()
      ensures cells == (old(cells) - Evicted(old(outpointsByHash), h, o))[h := entry]
      ensures outpointsByHash == (old(outpointsByHash) - Evicted(old(outpointsByHash), h, o))[h := o]
    {
      ghost var evicted := Evicted(outpointsByHash, h, o);
      IndexStaysLive(outpointsByHash, cells, evicted, h, o, entry);
      var previous;
      outpointsByHash, outpointHashes, previous := InsertIndex(outpointsByHash, outpointHashes, h, o);
      cells, leafHashes, muhash := TakeEvicted(scheme, cells, leafHashes, muhash, previous, evicted);
      leafHashes, muhash := PutLeaf(scheme, cells, leafHashes, muhash, h, entry);
      cells, cachedRoot := cells[h := entry], None;
    }

    method Remove(h: Hash) returns (result: Option<CellEntry>)
      requires Valid()
      modifies this
      ensures Valid()
      ensures result == if h in old(cells) then Some(old(cells)[h]) else None
      ensures cells == old(cells) - {h} && outpointsByHash == old(outpointsByHash) - {h}
    {
      if h !in cells {
        assert cells - {h} == cells && outpointsByHash - {h} == outpointsByHash;
        return None;
      }
      result := Some(cells[h]);
      leafHashes, muhash := TakeLeaf(scheme, cells, leafHashes, muhash, h);
      outpointsByHash, outpointHashes := RemoveIndex(outpointsByHash, outpointHashes, cells, h);
      cells, cachedRoot := cells - {h}, None;
    }

    method Clear()
      requires Valid()
      modifies this
      ensures Valid() && cells == map[] && outpointsByHash == map[]
    {
      cells := map[];
      outpointsByHash := map[];
      outpointHashes := map[];
      leafHashes := map[];
      muhash := New(scheme.group);
      cachedRoot := None;
      AccumulatorEmpty(scheme);
    }

    /** The cached root, when there is one, is the root of the live cells. */
    method Root() returns (root: Hash)
      requires Valid()
      modifies `cachedRoot
      ensures Valid() && root == RootOf(scheme, cells) && cachedRoot == Some(root)
    {
      if cachedRoot.Some? {
        return cachedRoot.value;
      }
      root := scheme.finalDigest(Normalize(scheme.group, muhash).numerator);
      cachedRoot := Some(root);
    }
  }

  lemma IndexStaysLive(
    byHash: map<Hash, OutPoint>, cells: Cells, evicted: set<Hash>, h: Hash, o: OutPoint, e: CellEntry)
    requires byHash.Keys <= cells.Keys
    ensures (byHash - evicted)[h := o].Keys <= (cells - evicted)[h := e].Keys
  {
  }

  /** The index maps after an insertion, and the eviction it causes. */
  lemma IndexAfterInsert(byHash: map<Hash, OutPoint>, hashes: map<OutPoint, Hash>, h: Hash, o: OutPoint)
    requires InverseMaps(byHash, hashes)
    ensures var fewer := if h in byHash then hashes - {byHash[h]} else hashes;
            var evicted := if o in fewer && fewer[o] != h then {fewer[o]} else {};
            && Evicted(byHash, h, o) == evicted && h !in evicted && evicted <= byHash.Keys
            && InverseMaps(byHash[h := o] - evicted, fewer[o := h])
            && (byHash - evicted)[h := o] == byHash[h := o] - evicted
  {
  }
}
