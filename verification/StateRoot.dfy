/** The state root as a function of the live cells, and how the accumulator follows it. */
module StateRoot {
  import opened Bytes
  import opened CellEntries
  import opened CommutativeGroup
  import opened Hashes
  import opened MuHash
  import opened Words

  type Cells = map<Hash, CellEntry>

  /** The hash functions of the tree: a cell's leaf hash, the map into the group, and the final digest. */
  datatype Scheme<!G> = Scheme(group: Group<G>, leaf: (Hash, CellEntry) -> Hash, element: Hash -> G, finalDigest: G -> Hash)

  /** The tree's own leaf hash over some digest. */
  function OverDigest<G>(
    group: Group<G>, digest: seq<byte> -> Hash, element: Hash -> G, finalDigest: G -> Hash): Scheme<G>
  {
    Scheme(group, (h, e) => LeafHash(digest, h, e), element, finalDigest)
  }

  function CellElement<G>(s: Scheme<G>, h: Hash, e: CellEntry): G
  {
    s.element(s.leaf(h, e))
  }

  ghost function LeafElements<G>(s: Scheme<G>, cells: Cells): map<Hash, G>
  {
    map h | h in cells :: CellElement(s, h, cells[h])
  }

  /** The product of the live leaves. */
  ghost function Content<G(!new)>(s: Scheme<G>, cells: Cells): G
  {
    Product(s.group, LeafElements(s, cells))
  }

  ghost function RootOf<G(!new)>(s: Scheme<G>, cells: Cells): Hash
  {
    s.finalDigest(Content(s, cells))
  }

  /** The root commits to the committed fields only. */
  lemma SameCommitmentSameRoot<G(!new)>(
    group: Group<G>, digest: seq<byte> -> Hash, element: Hash -> G, finalDigest: G -> Hash, a: Cells, b: Cells)
    requires a.Keys == b.Keys && forall h :: h in a ==> SameCommitment(a[h], b[h])
    ensures var s := OverDigest(group, digest, element, finalDigest); RootOf(s, a) == RootOf(s, b)
  {
    var s := OverDigest(group, digest, element, finalDigest);
    forall h | h in a ensures s.leaf(h, a[h]) == s.leaf(h, b[h]) {
      LeafHashIgnoresMetadata(digest, h, a[h], b[h]);
    }
    SameLeavesSameRoot(s, a, b);
  }

  lemma SameLeavesSameRoot<G(!new)>(s: Scheme<G>, a: Cells, b: Cells)
    requires a.Keys == b.Keys && forall h :: h in a ==> s.leaf(h, a[h]) == s.leaf(h, b[h])
    ensures RootOf(s, a) == RootOf(s, b)
  {
    assert LeafElements(s, a) == LeafElements(s, b);
  }

  lemma ElementsInsert<G>(s: Scheme<G>, cells: Cells, h: Hash, e: CellEntry)
    ensures LeafElements(s, cells[h := e]) == LeafElements(s, cells)[h := CellElement(s, h, e)]
  {
  }

  lemma ElementsRemove<G>(s: Scheme<G>, cells: Cells, h: Hash)
    ensures LeafElements(s, cells - {h}) == LeafElements(s, cells) - {h}
  {
  }

  /** Dividing by the old leaf, if any, and multiplying by the new one follows an insertion. */
  lemma AccumulatorInsert<G(!new)>(s: Scheme<G>, cells: Cells, m: MuHash<G>, h: Hash, e: CellEntry)
    requires Lawful(s.group) && Value(s.group, m) == Content(s, cells)
    ensures var old_ := if h in cells then RemoveElement(s.group, m, CellElement(s, h, cells[h])) else m;
            Value(s.group, AddElement(s.group, old_, CellElement(s, h, e))) == Content(s, cells[h := e])
  {
    var x := CellElement(s, h, e);
    ElementsInsert(s, cells, h, e);
    if h in cells {
      var y := CellElement(s, h, cells[h]);
      ValueAfter(s.group, m, y);
      ValueAfter(s.group, RemoveElement(s.group, m, y), x);
      ProductReplace(s.group, LeafElements(s, cells), h, x);
    } else {
      ValueAfter(s.group, m, x);
      ProductInsert(s.group, LeafElements(s, cells), h, x);
    }
  }

  lemma AccumulatorRemove<G(!new)>(s: Scheme<G>, cells: Cells, m: MuHash<G>, h: Hash)
    requires Lawful(s.group) && Value(s.group, m) == Content(s, cells) && h in cells
    ensures Value(s.group, RemoveElement(s.group, m, CellElement(s, h, cells[h]))) == Content(s, cells - {h})
  {
    ValueAfter(s.group, m, CellElement(s, h, cells[h]));
    ElementsRemove(s, cells, h);
    ProductRemove(s.group, LeafElements(s, cells), h);
  }

  lemma AccumulatorEmpty<G(!new)>(s: Scheme<G>)
    requires Lawful(s.group)
    ensures Value(s.group, New(s.group)) == Content(s, map[])
  {
    ValueAfter(s.group, New(s.group), s.group.one);
    assert LeafElements(s, map[]) == map[];
  }

  // ---- what the root depends on ----

  /** The empty state has the unit as content, and a new cell multiplies in the element of its own leaf hash. */
  lemma ContentInsert<G(!new)>(s: Scheme<G>, cells: Cells, h: Hash, e: CellEntry)
    requires Lawful(s.group) && h !in cells
    ensures Content(s, map[]) == s.group.one
    ensures Content(s, cells[h := e]) == s.group.mul(Content(s, cells), s.element(s.leaf(h, e)))
  {
    assert LeafElements(s, map[]) == map[];
    ElementsInsert(s, cells, h, e);
    ProductInsert(s.group, LeafElements(s, cells), h, s.element(s.leaf(h, e)));
  }

  /** The root of one cell is the final digest of the element of the digest of its leaf preimage. */
  lemma RootOfOne<G(!new)>(
    group: Group<G>, digest: seq<byte> -> Hash, element: Hash -> G, finalDigest: G -> Hash, h: Hash, e: CellEntry)
    requires Lawful(group)
    ensures RootOf(OverDigest(group, digest, element, finalDigest), map[h := e])
            == finalDigest(element(digest(LeafPreimage(digest, h, e))))
  {
    var s := OverDigest(group, digest, element, finalDigest);
    ContentInsert(s, map[], h, e);
    Unit(group, element(LeafHash(digest, h, e)));
    assert map[][h := e] == map[h := e];
  }

  /** Two different arguments with the same image. */
  ghost predicate Clash<A(!new), B(!new)>(f: A -> B, x: A, y: A)
  {
    x != y && f(x) == f(y)
  }

  /**
   * The root binds the contents of every cell: states that differ only in the committed fields of one
   * cell have different roots, or one of the named pairs collides.
   */
  lemma RootBinds<G(!new)>(
    group: Group<G>, digest: seq<byte> -> Hash, element: Hash -> G, finalDigest: G -> Hash, cells: Cells, h: Hash,
    a: CellEntry, b: CellEntry)
    requires Lawful(group)
    requires var s := OverDigest(group, digest, element, finalDigest); RootOf(s, cells[h := a]) == RootOf(s, cells[h := b])
    ensures var s := OverDigest(group, digest, element, finalDigest);
            || SameCommitment(a, b)
            || Clash(finalDigest, Content(s, cells[h := a]), Content(s, cells[h := b]))
            || Clash(element, LeafHash(digest, h, a), LeafHash(digest, h, b))
            || Collide(digest, LeafPreimage(digest, h, a), LeafPreimage(digest, h, b))
            || Collide(digest, EntryPreimage(a), EntryPreimage(b))
  {
    var s := OverDigest(group, digest, element, finalDigest);
    if Content(s, cells[h := a]) == Content(s, cells[h := b]) {
      SameContentSameElement(s, cells, h, a, b);
      if LeafHash(digest, h, a) == LeafHash(digest, h, b) { LeafHashBinds(digest, h, a, h, b); }
    }
  }

  lemma SameContentSameElement<G(!new)>(s: Scheme<G>, cells: Cells, h: Hash, a: CellEntry, b: CellEntry)
    requires Lawful(s.group) && Content(s, cells[h := a]) == Content(s, cells[h := b])
    ensures s.element(s.leaf(h, a)) == s.element(s.leaf(h, b))
  {
    var rest := cells - {h};
    assert rest[h := a] == cells[h := a] && rest[h := b] == cells[h := b];
    ContentInsert(s, rest, h, a);
    ContentInsert(s, rest, h, b);
    var c, x, y := Content(s, rest), s.element(s.leaf(h, a)), s.element(s.leaf(h, b));
    Commutes(s.group, c, x);
    Commutes(s.group, c, y);
    CancelEqual(s.group, x, y, c);
  }

  // ---- the root from scratch ----

  /** Adds the leaves of the listed cells to an empty accumulator, in the order of the list. */
  function FromScratch<G>(s: Scheme<G>, cells: Cells, keys: seq<Hash>): MuHash<G>
    requires forall h :: h in keys ==> h in cells
  {
    if keys == [] then New(s.group)
    else
      var last := keys[|keys| - 1];
      AddElement(s.group, FromScratch(s, cells, keys[..|keys| - 1]), CellElement(s, last, cells[last]))
  }

  /** The list names every live cell once. */
  ghost predicate Enumerates(keys: seq<Hash>, cells: Cells)
  {
    Distinct(keys) && forall h :: h in keys <==> h in cells
  }

  /** Any enumeration of the live cells, each once, gives the root. */
  lemma {:induction false} RootFromScratch<G(!new)>(s: Scheme<G>, cells: Cells, keys: seq<Hash>)
    requires Lawful(s.group) && Enumerates(keys, cells)
    ensures s.finalDigest(Value(s.group, FromScratch(s, cells, keys))) == RootOf(s, cells)
  {
    ContentFromScratch(s, cells, keys);
  }

  lemma {:induction false} ContentFromScratch<G(!new)>(s: Scheme<G>, cells: Cells, keys: seq<Hash>)
    requires Lawful(s.group) && Enumerates(keys, cells)
    ensures Value(s.group, FromScratch(s, cells, keys)) == Content(s, cells)
  {
    if keys == [] {
      assert cells == map[];
      AccumulatorEmpty(s);
    } else {
      var k := |keys| - 1;
      EnumeratesInit(keys, cells);
      ContentFromScratch(s, cells - {keys[k]}, keys[..k]);
      FromScratchSame(s, cells, cells - {keys[k]}, keys[..k]);
      LastLeaf(s, cells, FromScratch(s, cells, keys[..k]), keys[k]);
    }
  }

  lemma {:induction false} EnumeratesInit(keys: seq<Hash>, cells: Cells)
    requires |keys| > 0 && Enumerates(keys, cells)
    ensures var k := |keys| - 1; keys[k] in cells && Enumerates(keys[..k], cells - {keys[k]})
  {
    var k := |keys| - 1;
    assert keys == keys[..k] + [keys[k]];
  }

  lemma {:induction false} LastLeaf<G(!new)>(s: Scheme<G>, cells: Cells, m: MuHash<G>, h: Hash)
    requires Lawful(s.group) && h in cells && Value(s.group, m) == Content(s, cells - {h})
    ensures Value(s.group, AddElement(s.group, m, CellElement(s, h, cells[h]))) == Content(s, cells)
  {
    AccumulatorInsert(s, cells - {h}, m, h, cells[h]);
    assert (cells - {h})[h := cells[h]] == cells;
  }

  lemma {:induction false} FromScratchSame<G>(s: Scheme<G>, a: Cells, b: Cells, keys: seq<Hash>)
    requires forall h :: h in keys ==> h in a && h in b && a[h] == b[h]
    ensures FromScratch(s, a, keys) == FromScratch(s, b, keys)
  {
    if keys != [] { FromScratchSame(s, a, b, keys[..|keys| - 1]); }
  }
}
