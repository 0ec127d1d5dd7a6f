/** The cell transaction pool with its indexes, updated in place. */
module CellPool {
  import opened Hashes
  import opened Outcomes
  import opened Words
  import opened PoolLedger
  import opened PoolGraph

  datatype PoolEntry = PoolEntry(record: Record, dependencies: seq<Hash>, dependents: seq<Hash>)

  datatype PoolStats = PoolStats(totalTxs: nat, totalSize: nat, totalFee: nat, txsAdded: nat, txsRemoved: nat, rbfCount: nat)

  datatype RemoveResult = Removed(tx: CellTx) | NotFound(id: Hash)

  function TotalSize(l: seq<Record>): nat
  {
    if |l| == 0 then 0 else TotalSize(Init(l)) + Last(l).tx.size
  }

  function TotalFee(l: seq<Record>): nat
  {
    if |l| == 0 then 0 else TotalFee(Init(l)) + Last(l).fee
  }

  // ---- what the stored indexes must be ----

  /** The insertion-ordered map holds exactly the listed entries with their dependency lists. */
  ghost predicate EntriesMatch(l: seq<Record>, order: seq<Hash>, txs: map<Hash, PoolEntry>)
  {
    && order == Ids(l)
    && (forall h :: h in txs <==> Has(l, h))
    && forall h :: h in txs ==> txs[h] == EntryFor(l, h)
  }

  function EntryFor(l: seq<Record>, h: Hash): PoolEntry
    requires Has(l, h)
  {
    PoolEntry(Lookup(l, h), Sorted(Parents(l, h)), Children(l, h, Lookup(l, h).tx.id))
  }

  /** An outpoint is indexed exactly under the entry that spends it. */
  ghost predicate SpentMatch(l: seq<Record>, spent: map<OutPoint, Hash>)
  {
    forall o :: (if o in spent then Some(spent[o]) else None) == Holder(l, o)
  }

  ghost predicate StatsMatch(p: Pool, stats: PoolStats)
  {
    stats == PoolStats(|p.entries|, TotalSize(p.entries), TotalFee(p.entries), p.added, p.removed, p.replaced)
  }

  /** The fields of a pool object represent p. */
  ghost predicate Represents(p: Pool, limit: nat, order: seq<Hash>, txs: map<Hash, PoolEntry>, spent: map<OutPoint, Hash>,
                             stats: PoolStats)
  {
    && Sound(p, limit)
    && EntriesMatch(p.entries, order, txs)
    && SpentMatch(p.entries, spent)
    && StatsMatch(p, stats)
  }

  // ---- index updates, on values ----

  lemma {:induction false} EntryAfterAppend(l: seq<Record>, r: Record, k: Hash)
    requires DistinctIds(l) && Has(l, k) && !Has(l, r.tx.wtxid)
    ensures Has(l + [r], k)
    ensures EntryFor(l + [r], k) ==
      var e := EntryFor(l, k);
      if k in Producers(l, r.tx.inputs) then e.(dependents := e.dependents + [r.tx.wtxid]) else e
  {
    assert Init(l + [r]) == l && Last(l + [r]) == r;
    ProducersAre(l, r.tx.inputs, k);
  }

  lemma EntryOfNew(l: seq<Record>, r: Record)
    requires DistinctIds(l) && !Has(l, r.tx.wtxid)
    ensures Has(l + [r], r.tx.wtxid)
    ensures EntryFor(l + [r], r.tx.wtxid) == PoolEntry(r, Sorted(Producers(l, r.tx.inputs)), [])
  {
    assert Init(l + [r]) == l && Last(l + [r]) == r;
    ChildrenAreEntries(l, r.tx.wtxid, r.tx.id);
  }

  lemma EntriesAppend(l: seq<Record>, order: seq<Hash>, txs: map<Hash, PoolEntry>, r: Record)
    requires EntriesMatch(l, order, txs) && DistinctIds(l) && !Has(l, r.tx.wtxid)
    ensures EntriesMatch(l + [r], order + [r.tx.wtxid],
                         LinkAll(txs, Producers(l, r.tx.inputs), r.tx.wtxid)
                           [r.tx.wtxid := PoolEntry(r, Sorted(Producers(l, r.tx.inputs)), [])])
  {
    var l', h, parents := l + [r], r.tx.wtxid, Producers(l, r.tx.inputs);
    var linked := LinkAll(txs, parents, h);
    var new' := linked[h := PoolEntry(r, Sorted(parents), [])];
    IdsAppend(l, r);
    forall k ensures Has(l', k) <==> Has(l, k) || k == h { HasAppend(l, r, k); }
    forall k | k in new' ensures new'[k] == EntryFor(l', k) {
      if k == h { EntryOfNew(l, r); } else { EntryAfterAppend(l, r, k); }
    }
  }

  /** The new id is pushed on the dependents of every parent. */
  function LinkAll(txs: map<Hash, PoolEntry>, parents: set<Hash>, h: Hash): map<Hash, PoolEntry>
  {
    map k | k in txs :: if k in parents then txs[k].(dependents := txs[k].dependents + [h]) else txs[k]
  }

  /** The entry of k with h dropped from its two lists where the corresponding flag is set. */
  function Unlink(e: PoolEntry, h: Hash, isParent: bool, isChild: bool): PoolEntry
  {
    e.(dependents := if isParent then Retain(e.dependents, h) else e.dependents,
       dependencies := if isChild then Retain(e.dependencies, h) else e.dependencies)
  }

  /** A removed id is dropped from every dependency list that mentions it. */
  function UnlinkAll(txs: map<Hash, PoolEntry>, h: Hash): map<Hash, PoolEntry>
  {
    map k | k in txs && k != h :: Unlink(txs[k], h, true, true)
  }

  lemma EntriesRemove(l: seq<Record>, order: seq<Hash>, txs: map<Hash, PoolEntry>, h: Hash)
    requires EntriesMatch(l, order, txs) && DistinctIds(l) && Has(l, h)
    ensures EntriesMatch(Remove(l, h), Retain(order, h), UnlinkAll(txs, h))
  {
    IdsRemove(l, h);
    forall k ensures Has(Remove(l, h), k) <==> Has(l, k) && k != h { RemoveHas(l, h, k); }
    forall k | Has(l, k) && k != h ensures UnlinkAll(txs, h)[k] == EntryFor(Remove(l, h), k) {
      LookupRemove(l, h, k);
      ParentsRemove(l, h, k);
      RetainSorted(Parents(l, k), h);
      ChildrenRemove(l, h, k, Lookup(l, k).tx.id);
    }
  }

  lemma {:induction false} IdsRemove(l: seq<Record>, h: Hash)
    ensures Ids(Remove(l, h)) == Retain(Ids(l), h)
  {
    if |l| > 0 {
      IdsRemove(Init(l), h);
      var ids := Ids(Init(l));
      assert Init(ids + [Last(l).tx.wtxid]) == ids;
      if Last(l).tx.wtxid != h { IdsAppend(Remove(Init(l), h), Last(l)); }
    }
  }

  lemma {:induction false} LookupRemove(l: seq<Record>, h: Hash, k: Hash)
    requires Has(l, k) && k != h
    ensures Has(Remove(l, h), k) && Lookup(Remove(l, h), k) == Lookup(l, k)
  {
    RemoveHas(l, h, k);
    if Last(l).tx.wtxid != k { LookupRemove(Init(l), h, k); }
    var m := Remove(Init(l), h);
    assert Init(m + [Last(l)]) == m;
  }

  lemma {:induction false} RetainAbsent(s: seq<Hash>, h: Hash)
    requires h !in s
    ensures Retain(s, h) == s
  {
    if |s| > 0 {
      assert s == Init(s) + [Last(s)];
      RetainAbsent(Init(s), h);
    }
  }

  function UnlinkListed(
    txs: map<Hash, PoolEntry>, h: Hash, parents: set<Hash>, children: set<Hash>): map<Hash, PoolEntry>
  {
    map k | k in txs && k != h :: Unlink(txs[k], h, k in parents, k in children)
  }

  /** Only the listed parents and children mention h, so updating those is updating all. */
  lemma OnlyNeighboursMention(l: seq<Record>, txs: map<Hash, PoolEntry>, h: Hash)
    requires EntriesMatch(l, Ids(l), txs) && DistinctIds(l) && Has(l, h)
    ensures UnlinkListed(txs, h, Elements(txs[h].dependencies), Elements(txs[h].dependents)) == UnlinkAll(txs, h)
  {
    var e := EntryFor(l, h);
    assert txs[h] == e;
    forall k | k in txs && k != h
      ensures Unlink(txs[k], h, k in Elements(e.dependencies), k in Elements(e.dependents)) == Unlink(txs[k], h, true, true)
    {
      UnlinkIfListed(l, h, k);
    }
  }

  lemma {:induction false} UnlinkIfListed(l: seq<Record>, h: Hash, k: Hash)
    requires DistinctIds(l) && Has(l, h) && Has(l, k)
    ensures var e := EntryFor(l, h);
            Unlink(EntryFor(l, k), h, k in Elements(e.dependencies), k in Elements(e.dependents))
              == Unlink(EntryFor(l, k), h, true, true)
  {
    EdgesAreMutual(l, k, h);
    EdgesAreMutual(l, h, k);
    if k !in Parents(l, h) { RetainAbsent(EntryFor(l, k).dependents, h); }
    assert Elements(Sorted(Parents(l, k))) == Parents(l, k);
    if h !in Parents(l, k) { RetainAbsent(EntryFor(l, k).dependencies, h); }
  }

  lemma {:induction false} HolderRemove(l: seq<Record>, h: Hash, o: OutPoint)
    requires WellFormed(l)
    ensures Holder(Remove(l, h), o) == if Holder(l, o) == Some(h) then None else Holder(l, o)
  {
    if |l| > 0 {
      var init, last := Init(l), Last(l);
      HolderRemove(init, h, o);
      assert Init(Remove(init, h) + [last]) == Remove(init, h);
      if last.tx.wtxid == h {
        NotBefore(l);
        RemoveAbsent(init, h);
        HolderSpends(l, o);
        HolderSpends(init, o);
      }
    }
  }

  lemma {:induction false} TotalsRemove(l: seq<Record>, h: Hash)
    requires DistinctIds(l) && Has(l, h)
    ensures TotalSize(Remove(l, h)) == TotalSize(l) - Lookup(l, h).tx.size
    ensures TotalFee(Remove(l, h)) == TotalFee(l) - Lookup(l, h).fee
  {
    var init, last := Init(l), Last(l);
    assert Init(Remove(init, h) + [last]) == Remove(init, h);
    if last.tx.wtxid == h {
      NotBefore(l);
      RemoveAbsent(init, h);
    } else {
      TotalsRemove(init, h);
    }
  }

  lemma HolderAppend(l: seq<Record>, r: Record, o: OutPoint)
    ensures Holder(l + [r], o) == if o in r.tx.inputs then Some(r.tx.wtxid) else Holder(l, o)
  {
    assert Init(l + [r]) == l && Last(l + [r]) == r;
  }

  // ---- what the indexes mean for a reader of the pool ----

  /** An outpoint is indexed under w exactly when w is live and spends it. */
  lemma SpentIndexIsExact(l: seq<Record>, order: seq<Hash>, txs: map<Hash, PoolEntry>, spent: map<OutPoint, Hash>,
                          o: OutPoint, w: Hash)
    requires WellFormed(l) && EntriesMatch(l, order, txs) && SpentMatch(l, spent)
    ensures (o in spent && spent[o] == w) <==> (w in txs && o in txs[w].record.tx.inputs)
  {
    HolderSpends(l, o);
    assert (if o in spent then Some(spent[o]) else None) == Holder(l, o);
    if w in txs { assert txs[w] == EntryFor(l, w); }
  }

  /** Dependencies and dependents mirror each other, name live entries only, and never repeat one. */
  lemma LinksAreMutual(l: seq<Record>, order: seq<Hash>, txs: map<Hash, PoolEntry>, p: Hash, h: Hash)
    requires WellFormed(l) && EntriesMatch(l, order, txs) && h in txs
    ensures p in txs[h].dependencies ==> p in txs && h in txs[p].dependents
    ensures p in txs[h].dependents ==> p in txs && h in txs[p].dependencies
    ensures Ascending(txs[h].dependencies) && Distinct(txs[h].dependents)
  {
    EntryLists(l, order, txs, h);
    var e := EntryFor(l, h);
    assert txs[h] == e && Elements(e.dependencies) == Parents(l, h);
    ParentsAreEntries(l, p, h);
    ChildrenAreEntries(l, h, e.record.tx.id);
    EdgesAreMutual(l, h, p);
    if p in txs {
      assert txs[p] == EntryFor(l, p) && Elements(txs[p].dependencies) == Parents(l, p);
      EdgesAreMutual(l, p, h);
    }
  }

  /** The map's own order lists every dependency before its dependent. */
  lemma OrderIsTopological(l: seq<Record>, order: seq<Hash>, txs: map<Hash, PoolEntry>, p: Hash, h: Hash)
    requires WellFormed(l) && EntriesMatch(l, order, txs) && h in txs && p in txs[h].dependencies
    ensures exists i, j :: 0 <= i < j < |order| && order[i] == p && order[j] == h
  {
    assert txs[h] == EntryFor(l, h) && Elements(txs[h].dependencies) == Parents(l, h);
    ParentsComeFirst(l, p, h);
    var i, j := Position(l, p), Position(l, h);
    LookupAt(l, i);
    LookupAt(l, j);
    assert order[i] == p && order[j] == h;
  }

  // ---- the update loops ----

  /** Indexes every input of a new transaction. */
  method SpendInputs(
    before: map<OutPoint, Hash>, inputs: seq<OutPoint>, wtxid: Hash)
    returns (spent: map<OutPoint, Hash>)
    ensures forall o :: o in spent <==> o in before || o in inputs
    ensures forall o :: o in spent ==> spent[o] == if o in inputs then wtxid else before[o]
  {
    spent := before;
    for i := 0 to |inputs|
      invariant forall o :: o in spent <==> o in before || o in inputs[..i]
      invariant forall o :: o in spent ==> spent[o] == if o in inputs[..i] then wtxid else before[o]
    {
      assert inputs[..i + 1] == inputs[..i] + [inputs[i]];
      spent := spent[inputs[i] := wtxid];
    }
    assert inputs[..|inputs|] == inputs;
  }

  /** Forgets every input of a removed transaction. */
  method ReleaseInputs(before: map<OutPoint, Hash>, inputs: seq<OutPoint>) returns (spent: map<OutPoint, Hash>)
    ensures forall o :: o in spent <==> o in before && o !in inputs
    ensures forall o :: o in spent ==> spent[o] == before[o]
  {
    spent := before;
    for i := 0 to |inputs|
      invariant forall o :: o in spent <==> o in before && o !in inputs[..i]
      invariant forall o :: o in spent ==> spent[o] == before[o]
    {
      assert inputs[..i + 1] == inputs[..i] + [inputs[i]];
      spent := spent - {inputs[i]};
    }
    assert inputs[..|inputs|] == inputs;
  }

  /** Pushes the new id on the dependents of each parent that is in the pool. */
  method LinkToParents(
    before: map<Hash, PoolEntry>, parents: seq<Hash>, wtxid: Hash)
    returns (txs: map<Hash, PoolEntry>)
    requires Ascending(parents)
    ensures txs == LinkAll(before, Elements(parents), wtxid)
  {
    txs := before;
    assert LinkAll(txs, {}, wtxid) == txs;
    for i := 0 to |parents|
      invariant txs == LinkAll(before, Elements(parents[..i]), wtxid)
    {
      var dep := parents[i];
      assert parents[..i + 1] == parents[..i] + [dep];
      ElementsAppend(parents[..i], dep);
      assert dep !in Elements(parents[..i]);
      if dep in txs {
        txs := txs[dep := txs[dep].(dependents := txs[dep].dependents + [wtxid])];
      }
    }
    assert parents[..|parents|] == parents;
  }

  /** Drops a removed id from the dependents of its parents and the dependencies of its children. */
  method UnlinkNeighbours(before: map<Hash, PoolEntry>, wtxid: Hash, parents: seq<Hash>, children: seq<Hash>)
    returns (txs: map<Hash, PoolEntry>)
    requires Ascending(parents) && Distinct(children) && wtxid !in before
    ensures txs == UnlinkListed(before, wtxid, Elements(parents), Elements(children))
  {
    var halfway := UnlinkFromParents(before, wtxid, parents);
    txs := UnlinkFromChildren(halfway, wtxid, children);
  }

  method UnlinkFromParents(
    before: map<Hash, PoolEntry>, wtxid: Hash, parents: seq<Hash>)
    returns (txs: map<Hash, PoolEntry>)
    requires Ascending(parents) && wtxid !in before
    ensures txs == UnlinkListed(before, wtxid, Elements(parents), {})
  {
    txs := before;
    assert UnlinkListed(txs, wtxid, {}, {}) == txs;
    for i := 0 to |parents|
      invariant txs == UnlinkListed(before, wtxid, Elements(parents[..i]), {})
    {
      var dep := parents[i];
      assert parents[..i + 1] == parents[..i] + [dep];
      ElementsAppend(parents[..i], dep);
      assert dep !in Elements(parents[..i]);
      if dep in txs {
        txs := txs[dep := txs[dep].(dependents := Retain(txs[dep].dependents, wtxid))];
      }
    }
    assert parents[..|parents|] == parents;
  }

  method UnlinkFromChildren(
    before: map<Hash, PoolEntry>, wtxid: Hash, children: seq<Hash>)
    returns (txs: map<Hash, PoolEntry>)
    requires Distinct(children) && wtxid !in before
    ensures txs == UnlinkListed(before, wtxid, {}, Elements(children))
  {
    txs := before;
    assert UnlinkListed(txs, wtxid, {}, {}) == txs;
    for i := 0 to |children|
      invariant txs == UnlinkListed(before, wtxid, {}, Elements(children[..i]))
    {
      var child := children[i];
      assert children[..i + 1] == children[..i] + [child];
      ElementsAppend(children[..i], child);
      assert child !in Elements(children[..i]);
      if child in txs {
        txs := txs[child := txs[child].(dependencies := Retain(txs[child].dependencies, wtxid))];
      }
    }
    assert children[..|children|] == children;
  }

  /** All entries of l whose transaction id the outpoint refers to. */
  method ScanProducers(
    order: seq<Hash>, txs: map<Hash, PoolEntry>, o: OutPoint, ghost l: seq<Record>)
    returns (found: set<Hash>)
    requires EntriesMatch(l, order, txs) && DistinctIds(l)
    ensures found == Producers(l, [o])
  {
    found := {};
    for j := 0 to |order|
      invariant found == Producers(l[..j], [o])
    {
      EntryAt(l, order, txs, j);
      ProducersTake(l, j, o);
      if o.txHash == txs[order[j]].record.tx.id {
        found := found + {order[j]};
      }
    }
    assert l[..|order|] == l;
  }

  class CellPool {
    /** The insertion-ordered map: its keys in order and its entries. */
    var order: seq<Hash>
    var txs: map<Hash, PoolEntry>
    var spentOutputs: map<OutPoint, Hash>
    const maxSize: nat
    var stats: PoolStats
    /** The list of entries and the counters that the fields represent. */
    ghost var model: Pool

    ghost predicate Valid()
      reads this
    {
      Represents(model, maxSize, order, txs, spentOutputs, stats)
    }

    constructor (maxSize: nat)
      ensures Valid() && model == EMPTY && this.maxSize == maxSize
    {
      order, txs, spentOutputs := [], map[], map[];
      this.maxSize := maxSize;
      stats := PoolStats(0, 0, 0, 0, 0, 0);
      model := EMPTY;
    }

    method CheckConflicts(tx: CellTx) returns (conflicts: seq<Hash>)
      requires Valid()
      ensures conflicts == Conflicts(model.entries, tx.inputs)
    {
      conflicts := [];
      for i := 0 to |tx.inputs|
        invariant conflicts == Conflicts(model.entries, tx.inputs[..i])
      {
        var o := tx.inputs[i];
        assert tx.inputs[..i + 1] == tx.inputs[..i] + [o];
        ConflictsAppend(model.entries, tx.inputs[..i], o);
        assert (if o in spentOutputs then Some(spentOutputs[o]) else None) == Holder(model.entries, o);
        if o in spentOutputs {
          conflicts := conflicts + [spentOutputs[o]];
        }
      }
      assert tx.inputs[..|tx.inputs|] == tx.inputs;
    }

    /** Scans the pool once per input and collects the producers in ascending id order. */
    method FindDependencies(tx: CellTx) returns (deps: seq<Hash>)
      requires Valid()
      ensures deps == Sorted(Producers(model.entries, tx.inputs))
    {
      var found: set<Hash> := {};
      ProducersOfNothing(model.entries);
      for i := 0 to |tx.inputs|
        invariant found == Producers(model.entries, tx.inputs[..i])
      {
        var producers := ScanProducers(order, txs, tx.inputs[i], model.entries);
        found := found + producers;
        assert tx.inputs[..i + 1] == tx.inputs[..i] + [tx.inputs[i]];
        ProducersUnion(model.entries, tx.inputs[..i], tx.inputs[i]);
      }
      assert tx.inputs[..|tx.inputs|] == tx.inputs;
      deps := Sorted(found);
    }

    method Remove(wtxid: Hash) returns (result: RemoveResult)
      requires Valid()
      modifies this
      ensures Valid()
      ensures !Has(old(model.entries), wtxid) ==> model == old(model) && result == NotFound(wtxid)
      ensures Has(old(model.entries), wtxid) ==>
        model == Drop(old(model), wtxid) && result == Removed(Lookup(old(model.entries), wtxid).tx)
    {
      if wtxid !in txs {
        return NotFound(wtxid);
      }
      result := Removed(txs[wtxid].record.tx);
      EntryLists(model.entries, order, txs, wtxid);
      order, txs, spentOutputs, stats := RemoveFromIndexes(order, txs, spentOutputs, stats, wtxid, model, maxSize);
      model := Drop(model, wtxid);
    }

    /** Enters a transaction that conflicts with nothing. */
    method InsertEntry(r: Record)
      requires Valid() && |model.entries| < maxSize && !Has(model.entries, r.tx.wtxid)
      requires Conflicts(model.entries, r.tx.inputs) == []
      modifies this
      ensures Valid() && model == Append(old(model), r)
    {
      var dependencies := FindDependencies(r.tx);
      order, txs, spentOutputs, stats := InsertIntoIndexes(order, txs, spentOutputs, stats, r, dependencies, model, maxSize);
      model := Append(model, r);
    }

    method AddWithBlueScore(r: Record) returns (result: AddResult)
      requires Valid()
      modifies this
      ensures Valid() && (model, result) == Add(old(model), maxSize, r)
      decreases |model.entries|, 2
    {
      var wtxid := r.tx.wtxid;
      if wtxid in txs {
        return Refused(TxExists(wtxid));
      }
      if |order| >= maxSize {
        return Refused(MempoolFull(maxSize));
      }
      var conflicts := CheckConflicts(r.tx);
      if conflicts != [] {
        result := TryReplaceByFee(r, conflicts);
        return;
      }
      WithoutNothing(model.entries);
      InsertEntry(r);
      return Added(wtxid);
    }

    /** add: the same without a blue score. */
    method AddPlain(tx: CellTx, fee: u64, cycles: u64, feeDensity: u64) returns (result: AddResult)
      requires Valid()
      modifies this
      ensures Valid() && (model, result) == Add(old(model), maxSize, Record(tx, fee, cycles, None, feeDensity))
    {
      result := AddWithBlueScore(Record(tx, fee, cycles, None, feeDensity));
    }

    method TryReplaceByFee(r: Record, conflicts: seq<Hash>) returns (result: AddResult)
      requires Valid() && !Has(model.entries, r.tx.wtxid) && |model.entries| < maxSize
      requires conflicts != [] && conflicts == Conflicts(model.entries, r.tx.inputs)
      modifies this
      ensures Valid() && (model, result) == Add(old(model), maxSize, r)
      decreases |model.entries|, 1
    {
      var beaten := BeatsEvery(r, conflicts);
      if !beaten {
        AddUnbeaten(model, maxSize, r, conflicts);
        return Refused(RbfFailed);
      }
      result := ReplaceBeaten(r, conflicts);
    }

    /** Removes the beaten conflicts and offers the transaction again. */
    method ReplaceBeaten(r: Record, conflicts: seq<Hash>) returns (result: AddResult)
      requires Valid() && !Has(model.entries, r.tx.wtxid) && |model.entries| < maxSize
      requires conflicts != [] && conflicts == Conflicts(model.entries, r.tx.inputs)
      requires BeatsAll(model.entries, r, conflicts)
      modifies this
      ensures Valid() && (model, result) == Add(old(model), maxSize, r)
      decreases |model.entries|, 0
    {
      ghost var p := model;
      var missing := RemoveEach(conflicts);
      if missing.Some? {
        ReplacementStops(p, maxSize, r, conflicts, model, missing.value);
        return Refused(TxNotFound(missing.value));
      }
      CountReplacement();
      ReplacementGoesOn(p, maxSize, r, conflicts, model);
      result := AddWithBlueScore(r);
    }

    method CountReplacement()
      requires Valid()
      modifies this`stats, this`model
      ensures Valid() && model == old(model).(replaced := old(model).replaced + 1)
    {
      stats := stats.(rbfCount := stats.rbfCount + 1);
      model := model.(replaced := model.replaced + 1);
    }

    /** The first loop: does the new transaction beat every conflicting one? */
    method BeatsEvery(r: Record, conflicts: seq<Hash>) returns (beaten: bool)
      requires Valid() && conflicts == Conflicts(model.entries, r.tx.inputs)
      ensures beaten <==> BeatsAll(model.entries, r, conflicts)
    {
      LiveConflicts(model.entries, r.tx.inputs);
      for i := 0 to |conflicts|
        invariant forall j :: 0 <= j < i ==> Beats(r, Lookup(model.entries, conflicts[j]))
      {
        var h := conflicts[i];
        assert h in conflicts && Has(model.entries, h) && txs[h] == EntryFor(model.entries, h);
        if !IsBetterThan(KeyOf(r), KeyOf(txs[h].record)) {
          return false;
        }
      }
      return true;
    }

    /** The second loop: removes the conflicts one by one and gives up at the first that is missing. */
    method RemoveEach(conflicts: seq<Hash>) returns (missing: Option<Hash>)
      requires Valid()
      modifies this
      ensures Valid() && (model, missing) == DropAll(old(model), conflicts)
    {
      for i := 0 to |conflicts|
        invariant Valid() && (model, None) == DropAll(old(model), conflicts[..i])
      {
        assert Init(conflicts[..i + 1]) == conflicts[..i];
        var removed := Remove(conflicts[i]);
        if removed.NotFound? {
          DropAllStops(old(model), conflicts, i + 1);
          return Some(conflicts[i]);
        }
      }
      assert conflicts[..|conflicts|] == conflicts;
      return None;
    }
  }

  lemma {:induction false} DropAllStops(p: Pool, ids: seq<Hash>, k: nat)
    requires k <= |ids| && DropAll(p, ids[..k]).1.Some?
    ensures DropAll(p, ids) == DropAll(p, ids[..k])
    decreases |ids|
  {
    if k == |ids| {
      assert ids[..k] == ids;
    } else {
      assert Init(ids)[..k] == ids[..k];
      DropAllStops(p, Init(ids), k);
    }
  }

  lemma {:induction false} EntryLists(l: seq<Record>, order: seq<Hash>, txs: map<Hash, PoolEntry>, h: Hash)
    requires EntriesMatch(l, order, txs) && DistinctIds(l) && h in txs
    ensures Has(l, h) && txs[h].record == Lookup(l, h)
    ensures Ascending(txs[h].dependencies) && Distinct(txs[h].dependents)
  {
    ChildrenAreEntries(l, h, Lookup(l, h).tx.id);
  }

  lemma TotalsAppend(l: seq<Record>, r: Record)
    ensures TotalSize(l + [r]) == TotalSize(l) + r.tx.size
    ensures TotalFee(l + [r]) == TotalFee(l) + r.fee
  {
    assert Init(l + [r]) == l && Last(l + [r]) == r;
  }

  /** Removing an entry from the three indexes and the statistics represents removing it from the list. */
  method RemoveFromIndexes(
    order: seq<Hash>, txs: map<Hash, PoolEntry>, spent: map<OutPoint, Hash>, stats: PoolStats, h: Hash, ghost p: Pool,
    ghost limit: nat)
    returns (order': seq<Hash>, txs': map<Hash, PoolEntry>, spent': map<OutPoint, Hash>, stats': PoolStats)
    requires Represents(p, limit, order, txs, spent, stats) && h in txs
    ensures Represents(Drop(p, h), limit, order', txs', spent', stats')
  {
    var entry := txs[h];
    EntryLists(p.entries, order, txs, h);
    StatsAfterDrop(p, stats, h);
    stats' := stats.(totalTxs := stats.totalTxs - 1,
                     totalSize := stats.totalSize - entry.record.tx.size,
                     totalFee := stats.totalFee - entry.record.fee,
                     txsRemoved := stats.txsRemoved + 1);
    order' := Retain(order, h);
    spent' := ReleaseInputs(spent, entry.record.tx.inputs);
    txs' := UnlinkNeighbours(txs - {h}, h, entry.dependencies, entry.dependents);
    EntriesAfterDrop(p.entries, order, txs, txs', h);
    SpentAfterRemove(p.entries, spent, spent', h);
    DropKeepsBalance(p, h);
  }

  lemma EntriesAfterDrop(
    l: seq<Record>, order: seq<Hash>, txs: map<Hash, PoolEntry>, txs': map<Hash, PoolEntry>, h: Hash)
    requires EntriesMatch(l, order, txs) && DistinctIds(l) && h in txs
    requires txs' == UnlinkListed(txs - {h}, h, Elements(txs[h].dependencies), Elements(txs[h].dependents))
    ensures EntriesMatch(PoolLedger.Remove(l, h), Retain(order, h), txs')
  {
    assert txs' == UnlinkListed(txs, h, Elements(txs[h].dependencies), Elements(txs[h].dependents));
    OnlyNeighboursMention(l, txs, h);
    EntriesRemove(l, order, txs, h);
  }

  lemma {:induction false} StatsAfterDrop(p: Pool, stats: PoolStats, h: Hash)
    requires StatsMatch(p, stats) && WellFormed(p.entries) && Has(p.entries, h)
    ensures var r := Lookup(p.entries, h);
            && stats.totalTxs >= 1 && stats.totalSize >= r.tx.size && stats.totalFee >= r.fee
            && StatsMatch(Drop(p, h), stats.(totalTxs := stats.totalTxs - 1,
                                             totalSize := stats.totalSize - r.tx.size,
                                             totalFee := stats.totalFee - r.fee,
                                             txsRemoved := stats.txsRemoved + 1))
  {
    TotalsRemove(p.entries, h);
    DropKeepsBalance(p, h);
  }

  lemma StatsAfterAppend(p: Pool, stats: PoolStats, r: Record)
    requires StatsMatch(p, stats)
    ensures StatsMatch(Append(p, r), stats.(totalTxs := stats.totalTxs + 1,
                                            totalSize := stats.totalSize + r.tx.size,
                                            totalFee := stats.totalFee + r.fee,
                                            txsAdded := stats.txsAdded + 1))
  {
    TotalsAppend(p.entries, r);
  }

  /** Entering a transaction in the three indexes and the statistics represents appending it to the list. */
  method InsertIntoIndexes(
    order: seq<Hash>, txs: map<Hash, PoolEntry>, spent: map<OutPoint, Hash>, stats: PoolStats, r: Record,
    dependencies: seq<Hash>, ghost p: Pool, ghost limit: nat)
    returns (order': seq<Hash>, txs': map<Hash, PoolEntry>, spent': map<OutPoint, Hash>, stats': PoolStats)
    requires Represents(p, limit, order, txs, spent, stats)
    requires |p.entries| < limit && !Has(p.entries, r.tx.wtxid) && Conflicts(p.entries, r.tx.inputs) == []
    requires dependencies == Sorted(Producers(p.entries, r.tx.inputs))
    ensures Represents(Append(p, r), limit, order', txs', spent', stats')
  {
    spent' := SpendInputs(spent, r.tx.inputs, r.tx.wtxid);
    txs' := LinkToParents(txs, dependencies, r.tx.wtxid);
    txs' := txs'[r.tx.wtxid := PoolEntry(r, dependencies, [])];
    order' := order + [r.tx.wtxid];
    stats' := stats.(totalTxs := stats.totalTxs + 1,
                     totalSize := stats.totalSize + r.tx.size,
                     totalFee := stats.totalFee + r.fee,
                     txsAdded := stats.txsAdded + 1);
    EntriesAppend(p.entries, order, txs, r);
    SpentAfterAppend(p.entries, spent, spent', r);
    StatsAfterAppend(p, stats, r);
    AppendKeepsWellFormed(p.entries, r);
  }

  lemma {:induction false} SpentAfterRemove(
    l: seq<Record>, before: map<OutPoint, Hash>, after: map<OutPoint, Hash>, h: Hash)
    requires WellFormed(l) && SpentMatch(l, before) && Has(l, h)
    requires forall o :: o in after <==> o in before && o !in Lookup(l, h).tx.inputs
    requires forall o :: o in after ==> after[o] == before[o]
    ensures SpentMatch(PoolLedger.Remove(l, h), after)
  {
    forall o ensures (if o in after then Some(after[o]) else None) == Holder(PoolLedger.Remove(l, h), o) {
      HolderRemove(l, h, o);
      HolderSpends(l, o);
    }
  }

  lemma SpentAfterAppend(l: seq<Record>, before: map<OutPoint, Hash>, after: map<OutPoint, Hash>, r: Record)
    requires SpentMatch(l, before)
    requires forall o :: o in after <==> o in before || o in r.tx.inputs
    requires forall o :: o in after ==> after[o] == if o in r.tx.inputs then r.tx.wtxid else before[o]
    ensures SpentMatch(l + [r], after)
  {
    forall o ensures (if o in after then Some(after[o]) else None) == Holder(l + [r], o) { HolderAppend(l, r, o); }
  }

  lemma EntryAt(l: seq<Record>, order: seq<Hash>, txs: map<Hash, PoolEntry>, j: nat)
    requires EntriesMatch(l, order, txs) && DistinctIds(l) && j < |l|
    ensures order[j] == l[j].tx.wtxid && order[j] in txs && txs[order[j]].record == l[j]
  {
    LookupAt(l, j);
  }

  lemma {:induction false} LookupAt(l: seq<Record>, j: nat)
    requires DistinctIds(l) && j < |l|
    ensures Ids(l)[j] == l[j].tx.wtxid
    ensures Has(l, l[j].tx.wtxid) && Lookup(l, l[j].tx.wtxid) == l[j]
  {
    if j < |l| - 1 { LookupAt(Init(l), j); }
  }

  lemma ProducersTake(l: seq<Record>, j: nat, o: OutPoint)
    requires j < |l|
    ensures Producers(l[..j + 1], [o]) == Producers(l[..j], [o]) + if o.txHash == l[j].tx.id then {l[j].tx.wtxid} else {}
  {
    assert l[..j + 1] == l[..j] + [l[j]];
    ProducersGrow(l[..j], l[j], o);
  }

  lemma ProducersGrow(l: seq<Record>, r: Record, o: OutPoint)
    ensures Producers(l + [r], [o]) == Producers(l, [o]) + if o.txHash == r.tx.id then {r.tx.wtxid} else {}
  {
    assert Init(l + [r]) == l && Last(l + [r]) == r;
    assert [o][0] == o;
  }

  lemma {:induction false} ProducersOfNothing(l: seq<Record>)
    ensures Producers(l, []) == {}
  {
    if |l| > 0 { ProducersOfNothing(Init(l)); }
  }

  lemma {:induction false} ProducersUnion(l: seq<Record>, inputs: seq<OutPoint>, o: OutPoint)
    ensures Producers(l, inputs + [o]) == Producers(l, inputs) + Producers(l, [o])
  {
    if |l| > 0 {
      ProducersUnion(Init(l), inputs, o);
      SpendsFromAppend(inputs, o, Last(l).tx.id);
    }
  }

  lemma SpendsFromAppend(inputs: seq<OutPoint>, o: OutPoint, id: Hash)
    ensures SpendsFrom(inputs + [o], id) <==> SpendsFrom(inputs, id) || SpendsFrom([o], id)
  {
    var t := inputs + [o];
    if SpendsFrom(inputs, id) {
      var i :| 0 <= i < |inputs| && inputs[i].txHash == id;
      assert t[i].txHash == id;
    }
    assert t[|inputs|] == o == [o][0];
  }
}
