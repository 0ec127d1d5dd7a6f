/**
 * What the cell transaction pool does, told on the list of its entries in insertion order.
 * The pool's indexes (spent outputs, dependencies, statistics) are all functions of this list.
 */
module PoolLedger {
  import opened Hashes
  import opened Outcomes
  import opened Words

  datatype OutPoint = OutPoint(txHash: Hash, index: nat)

  /** A transaction with what its identifier and size functions yield for it. */
  datatype CellTx = CellTx(wtxid: Hash, id: Hash, inputs: seq<OutPoint>, size: nat)

  /** A transaction as offered: fee data and the fixed-point fee density the scorer computes from it. */
  datatype Record = Record(tx: CellTx, fee: u64, cycles: u64, blueScore: Option<u64>, feeDensity: u64)

  // ---- conflict keys ----

  datatype ConflictKey = ConflictKey(negFeeDensity: u64, negBlueScore: u64, wtxid: Hash)

  function BlueScore(r: Record): u64
  {
    match r.blueScore case Some(b) => b case None => 0
  }

  function KeyOf(r: Record): ConflictKey
  {
    ConflictKey(U64_MAX - r.feeDensity, U64_MAX - BlueScore(r), r.tx.wtxid)
  }

  /** The derived lexicographic order; smaller is better. */
  predicate IsBetterThan(a: ConflictKey, b: ConflictKey)
  {
    || a.negFeeDensity < b.negFeeDensity
    || (a.negFeeDensity == b.negFeeDensity && a.negBlueScore < b.negBlueScore)
    || (a.negFeeDensity == b.negFeeDensity && a.negBlueScore == b.negBlueScore && a.wtxid < b.wtxid)
  }

  predicate Beats(a: Record, b: Record)
  {
    IsBetterThan(KeyOf(a), KeyOf(b))
  }

  /** Higher fee density wins, then higher blue score, then the smaller id; a missing blue score counts as zero. */
  lemma BeatsMeans(a: Record, b: Record)
    ensures var x, y := a.blueScore, b.blueScore;
            var higher := x.Some? && (if y.Some? then x.value > y.value else x.value > 0);
            var level := match (x, y)
              case (Some(u), Some(v)) => u == v
              case (Some(u), None) => u == 0
              case (None, Some(v)) => v == 0
              case (None, None) => true;
            Beats(a, b) <==>
              || a.feeDensity > b.feeDensity
              || (a.feeDensity == b.feeDensity && higher)
              || (a.feeDensity == b.feeDensity && level && a.tx.wtxid < b.tx.wtxid)
  {
  }

  // ---- the list of entries ----

  function Last<T>(s: seq<T>): T
    requires |s| > 0
  {
    s[|s| - 1]
  }

  function Init<T>(s: seq<T>): seq<T>
    requires |s| > 0
  {
    s[..|s| - 1]
  }

  function Ids(l: seq<Record>): (ids: seq<Hash>)
    ensures |ids| == |l|
  {
    if |l| == 0 then [] else Ids(Init(l)) + [Last(l).tx.wtxid]
  }

  /** Some entry has id h. */
  predicate Has(l: seq<Record>, h: Hash)
  {
    |l| > 0 && (Last(l).tx.wtxid == h || Has(Init(l), h))
  }

  lemma {:induction false} HasIndex(l: seq<Record>, h: Hash)
    ensures Has(l, h) <==> exists i :: 0 <= i < |l| && l[i].tx.wtxid == h
  {
    if |l| > 0 {
      var init := Init(l);
      HasIndex(init, h);
      if Has(init, h) {
        var i :| 0 <= i < |init| && init[i].tx.wtxid == h;
        assert l[i].tx.wtxid == h;
      }
      if exists i :: 0 <= i < |l| && l[i].tx.wtxid == h {
        var i :| 0 <= i < |l| && l[i].tx.wtxid == h;
        assert i < |init| ==> init[i].tx.wtxid == h;
      }
    }
  }

  lemma HasAppend(l: seq<Record>, r: Record, h: Hash)
    ensures Has(l + [r], h) <==> Has(l, h) || r.tx.wtxid == h
  {
    assert Init(l + [r]) == l && Last(l + [r]) == r;
  }

  /** The entry with id h. */
  function Lookup(l: seq<Record>, h: Hash): (r: Record)
    requires Has(l, h)
    ensures r in l && r.tx.wtxid == h
  {
    if Last(l).tx.wtxid == h then Last(l) else Lookup(Init(l), h)
  }

  /** The list without the entries of id h, in the same order. */
  function Remove(l: seq<Record>, h: Hash): seq<Record>
  {
    if |l| == 0 then []
    else if Last(l).tx.wtxid == h then Remove(Init(l), h)
    else Remove(Init(l), h) + [Last(l)]
  }

  predicate DistinctIds(l: seq<Record>)
  {
    forall i, j :: 0 <= i < j < |l| ==> l[i].tx.wtxid != l[j].tx.wtxid
  }

  /** No outpoint is spent by two entries. */
  predicate NoDoubleSpend(l: seq<Record>)
  {
    forall i, j, o :: 0 <= i < j < |l| && o in l[i].tx.inputs ==> o !in l[j].tx.inputs
  }

  lemma {:induction false} RemoveHas(l: seq<Record>, h: Hash, k: Hash)
    ensures Has(Remove(l, h), k) <==> Has(l, k) && k != h
  {
    if |l| > 0 {
      RemoveHas(Init(l), h, k);
      HasAppend(Remove(Init(l), h), Last(l), k);
    }
  }

  lemma IdsAppend(l: seq<Record>, r: Record)
    ensures Ids(l + [r]) == Ids(l) + [r.tx.wtxid]
  {
    assert Init(l + [r]) == l;
  }

  /** The position of the entry with id h. */
  function Position(l: seq<Record>, h: Hash): (i: nat)
    requires Has(l, h)
    ensures i < |l| && l[i].tx.wtxid == h
  {
    if Last(l).tx.wtxid == h then |l| - 1 else Position(Init(l), h)
  }

  lemma HasRecord(l: seq<Record>, h: Hash)
    ensures Has(l, h) <==> exists r :: r in l && r.tx.wtxid == h
  {
    HasIndex(l, h);
    if exists r :: r in l && r.tx.wtxid == h {
      var r :| r in l && r.tx.wtxid == h;
      var i :| 0 <= i < |l| && l[i] == r;
    }
  }

  lemma {:induction false} RemoveShrinks(l: seq<Record>, h: Hash)
    ensures |Remove(l, h)| <= |l|
    ensures Has(l, h) ==> |Remove(l, h)| < |l|
  {
    if |l| > 0 {
      RemoveShrinks(Init(l), h);
    }
  }

  /** Removing is taking out one position. */
  lemma {:induction false} RemoveIsCut(l: seq<Record>, i: nat)
    requires i < |l| && DistinctIds(l)
    ensures Remove(l, l[i].tx.wtxid) == l[..i] + l[i + 1..]
  {
    var h := l[i].tx.wtxid;
    if i == |l| - 1 {
      HasIndex(Init(l), h);
      RemoveAbsent(Init(l), h);
      assert l[i + 1..] == [];
    } else {
      RemoveIsCut(Init(l), i);
      assert Init(l)[..i] + Init(l)[i + 1..] + [Last(l)] == l[..i] + l[i + 1..];
    }
  }

  lemma {:induction false} RemoveAbsent(l: seq<Record>, h: Hash)
    requires !Has(l, h)
    ensures Remove(l, h) == l
  {
    if |l| > 0 {
      assert l == Init(l) + [Last(l)];
      RemoveAbsent(Init(l), h);
    }
  }

  lemma NotBefore(l: seq<Record>)
    requires |l| > 0 && DistinctIds(l)
    ensures !Has(Init(l), Last(l).tx.wtxid)
  {
    HasIndex(Init(l), Last(l).tx.wtxid);
  }

  /** What every list of live entries satisfies. */
  predicate WellFormed(l: seq<Record>)
  {
    DistinctIds(l) && NoDoubleSpend(l)
  }

  lemma {:induction false} RemoveKeepsWellFormed(l: seq<Record>, h: Hash)
    requires WellFormed(l)
    ensures WellFormed(Remove(l, h))
  {
    if Has(l, h) {
      var i := Position(l, h);
      RemoveIsCut(l, i);
      var m := l[..i] + l[i + 1..];
      forall a, b | 0 <= a < b < |m|
        ensures m[a].tx.wtxid != m[b].tx.wtxid
        ensures forall o :: o in m[a].tx.inputs ==> o !in m[b].tx.inputs
      {
        var a', b' := if a < i then a else a + 1, if b < i then b else b + 1;
        assert m[a] == l[a'] && m[b] == l[b'];
      }
    } else {
      RemoveAbsent(l, h);
    }
  }

  // ---- conflicts ----

  /** The entry that spends o, if any. */
  function Holder(l: seq<Record>, o: OutPoint): Option<Hash>
  {
    if |l| == 0 then None
    else if o in Last(l).tx.inputs then Some(Last(l).tx.wtxid)
    else Holder(Init(l), o)
  }

  lemma {:induction false} HolderSpends(l: seq<Record>, o: OutPoint)
    requires WellFormed(l)
    ensures Holder(l, o).None? <==> forall r :: r in l ==> o !in r.tx.inputs
    ensures Holder(l, o).Some? ==> Has(l, Holder(l, o).value)
    ensures forall r :: r in l ==> (o in r.tx.inputs <==> Holder(l, o) == Some(r.tx.wtxid))
  {
    if |l| > 0 {
      assert l == Init(l) + [Last(l)];
      assert forall r :: r in l <==> r in Init(l) || r == Last(l);
      HolderSpends(Init(l), o);
    }
  }

  /** One conflict per input that is already spent, in input order and with repetitions. */
  function Conflicts(l: seq<Record>, inputs: seq<OutPoint>): seq<Hash>
  {
    if |inputs| == 0 then []
    else
      var rest := Conflicts(l, Init(inputs));
      match Holder(l, Last(inputs)) case Some(h) => rest + [h] case None => rest
  }

  lemma ConflictsAppend(l: seq<Record>, inputs: seq<OutPoint>, o: OutPoint)
    ensures Conflicts(l, inputs + [o]) == Conflicts(l, inputs) + match Holder(l, o) case Some(h) => [h] case None => []
  {
    assert Init(inputs + [o]) == inputs;
  }

  lemma {:induction false} ConflictsAre(l: seq<Record>, inputs: seq<OutPoint>)
    requires WellFormed(l)
    ensures forall h :: h in Conflicts(l, inputs) <==>
      exists r :: r in l && r.tx.wtxid == h && exists o :: o in inputs && o in r.tx.inputs
    ensures forall h :: h in Conflicts(l, inputs) ==> Has(l, h)
  {
    if |inputs| > 0 {
      var init, o := Init(inputs), Last(inputs);
      assert forall x :: x in inputs <==> x in init || x == o;
      ConflictsAre(l, init);
      HolderSpends(l, o);
      if Holder(l, o).Some? {
        var r := Lookup(l, Holder(l, o).value);
        assert o in r.tx.inputs;
      }
    }
  }

  // ---- the operations ----

  /** The pool's entries and its event counters. */
  datatype Pool = Pool(entries: seq<Record>, added: nat, removed: nat, replaced: nat)

  const EMPTY: Pool := Pool([], 0, 0, 0)

  datatype PoolError = TxExists(id: Hash) | MempoolFull(limit: nat) | TxNotFound(id: Hash) | RbfFailed

  datatype AddResult = Added(id: Hash) | Refused(error: PoolError)

  function Append(p: Pool, r: Record): Pool
  {
    p.(entries := p.entries + [r], added := p.added + 1)
  }

  function Drop(p: Pool, h: Hash): Pool
  {
    p.(entries := Remove(p.entries, h), removed := p.removed + 1)
  }

  /** Removes the listed entries one by one and stops at the first that is not there. */
  function DropAll(p: Pool, ids: seq<Hash>): (Pool, Option<Hash>)
  {
    if |ids| == 0 then (p, None)
    else
      var (q, missing) := DropAll(p, Init(ids));
      if missing.Some? then (q, missing)
      else if Has(q.entries, Last(ids)) then (Drop(q, Last(ids)), None)
      else (q, Some(Last(ids)))
  }

  predicate BeatsAll(l: seq<Record>, r: Record, ids: seq<Hash>)
  {
    forall h :: h in ids && Has(l, h) ==> Beats(r, Lookup(l, h))
  }

  lemma {:induction false} DropAllShrinks(p: Pool, ids: seq<Hash>)
    ensures |DropAll(p, ids).0.entries| <= |p.entries|
    ensures ids != [] && DropAll(p, ids).1.None? ==> |DropAll(p, ids).0.entries| < |p.entries|
  {
    if |ids| > 0 {
      DropAllShrinks(p, Init(ids));
      RemoveShrinks(DropAll(p, Init(ids)).0.entries, Last(ids));
    }
  }

  /** The list without the entries named in ids. */
  function Without(l: seq<Record>, ids: seq<Hash>): seq<Record>
  {
    if |l| == 0 then []
    else if Last(l).tx.wtxid in ids then Without(Init(l), ids)
    else Without(Init(l), ids) + [Last(l)]
  }

  lemma {:induction false} WithoutNothing(l: seq<Record>)
    ensures Without(l, []) == l
  {
    if |l| > 0 { WithoutNothing(Init(l)); }
  }

  lemma {:induction false} WithoutOneMore(l: seq<Record>, ids: seq<Hash>, h: Hash)
    ensures Remove(Without(l, ids), h) == Without(l, ids + [h])
  {
    if |l| > 0 {
      WithoutOneMore(Init(l), ids, h);
      var m := Without(Init(l), ids);
      assert Init(m + [Last(l)]) == m;
    }
  }

  lemma {:induction false} WithoutMembers(l: seq<Record>, ids: seq<Hash>, r: Record)
    ensures r in Without(l, ids) <==> r in l && r.tx.wtxid !in ids
  {
    if |l| > 0 {
      WithoutMembers(Init(l), ids, r);
      assert l == Init(l) + [Last(l)];
    }
  }

  lemma WithoutHas(l: seq<Record>, ids: seq<Hash>, h: Hash)
    ensures Has(Without(l, ids), h) <==> Has(l, h) && h !in ids
  {
    HasRecord(l, h);
    HasRecord(Without(l, ids), h);
    forall r ensures r in Without(l, ids) <==> r in l && r.tx.wtxid !in ids { WithoutMembers(l, ids, r); }
  }

  /** The position of the first id that occurred before, or the length if all differ. */
  function FirstRepeat(ids: seq<Hash>): (k: nat)
    ensures k <= |ids|
    ensures k == |ids| <==> Distinct(ids)
    ensures k < |ids| ==> ids[k] in ids[..k]
  {
    if |ids| == 0 then 0
    else
      var init := Init(ids);
      var k := FirstRepeat(init);
      assert forall j :: 0 <= j <= |init| ==> init[..j] == ids[..j];
      if k < |init| then k else if Last(ids) in init then |init| else |ids|
  }

  /** Removing a list of live ids gets as far as the first repetition. */
  lemma {:induction false} DropAllOutcome(p: Pool, ids: seq<Hash>)
    requires forall h :: h in ids ==> Has(p.entries, h)
    ensures DropAll(p, ids).1 == if FirstRepeat(ids) < |ids| then Some(ids[FirstRepeat(ids)]) else None
    ensures DropAll(p, ids).0 ==
      Pool(Without(p.entries, ids[..FirstRepeat(ids)]), p.added, p.removed + FirstRepeat(ids), p.replaced)
  {
    if |ids| == 0 {
      WithoutNothing(p.entries);
    } else {
      var init, k := Init(ids), FirstRepeat(Init(ids));
      DropAllOutcome(p, init);
      assert init[..k] == ids[..k];
      if k == |init| {
        DropLast(p, ids);
      } else {
        assert FirstRepeat(ids) == k && ids[k] == init[k];
      }
    }
  }

  lemma {:induction false} DropLast(p: Pool, ids: seq<Hash>)
    requires |ids| > 0 && Has(p.entries, Last(ids))
    ensures Has(Without(p.entries, Init(ids)[..|ids| - 1]), Last(ids)) <==> Last(ids) !in Init(ids)
    ensures Remove(Without(p.entries, Init(ids)[..|ids| - 1]), Last(ids)) == Without(p.entries, ids[..|ids|])
  {
    var init, h := Init(ids), Last(ids);
    assert init[..|init|] == init && init + [h] == ids[..|ids|];
    WithoutHas(p.entries, init, h);
    WithoutOneMore(p.entries, init, h);
  }

  lemma {:induction false} WithoutKeepsWellFormed(l: seq<Record>, ids: seq<Hash>)
    requires WellFormed(l)
    ensures WellFormed(Without(l, ids))
    decreases |ids|
  {
    if |ids| == 0 {
      WithoutNothing(l);
    } else {
      WithoutKeepsWellFormed(l, Init(ids));
      WithoutOneMore(l, Init(ids), Last(ids));
      assert Init(ids) + [Last(ids)] == ids;
      RemoveKeepsWellFormed(Without(l, Init(ids)), Last(ids));
    }
  }

  /** Once the conflicting entries are gone nothing else conflicts, so the re-add never recurses again. */
  lemma NoConflictAfterRemoval(l: seq<Record>, inputs: seq<OutPoint>)
    requires WellFormed(l)
    ensures Conflicts(Without(l, Conflicts(l, inputs)), inputs) == []
  {
    var ids := Conflicts(l, inputs);
    var m := Without(l, ids);
    WithoutKeepsWellFormed(l, ids);
    ConflictsAre(l, inputs);
    ConflictsAre(m, inputs);
    forall h ensures h !in Conflicts(m, inputs) {
      forall r ensures r in m <==> r in l && r.tx.wtxid !in ids { WithoutMembers(l, ids, r); }
    }
    if Conflicts(m, inputs) != [] { HasMember(Conflicts(m, inputs)); }
  }

  lemma HasMember(s: seq<Hash>)
    requires s != []
    ensures exists h :: h in s
  {
    assert s[0] in s;
  }

  /**
   * Everything an add can do. It succeeds exactly when the id is new, there is room, every conflicting
   * entry is beaten and none is met twice; then precisely the conflicting entries leave and the new
   * one enters last. A refusal changes nothing, except that a conflict met twice is found missing
   * after the conflicts before its second occurrence were removed.
   */
  function Add(p: Pool, limit: nat, r: Record): (Pool, AddResult)
  {
    var h, c := r.tx.wtxid, Conflicts(p.entries, r.tx.inputs);
    var k := FirstRepeat(c);
    if Has(p.entries, h) then (p, Refused(TxExists(h)))
    else if |p.entries| >= limit then (p, Refused(MempoolFull(limit)))
    else if !BeatsAll(p.entries, r, c) then (p, Refused(RbfFailed))
    else if k < |c| then (Pool(Without(p.entries, c[..k]), p.added, p.removed + k, p.replaced), Refused(TxNotFound(c[k])))
    else (Replaced(p, r, c), Added(h))
  }

  /** The pool after r took the place of the conflicts c. */
  function Replaced(p: Pool, r: Record, c: seq<Hash>): Pool
  {
    Pool(Without(p.entries, c) + [r], p.added + 1, p.removed + |c|, if c == [] then p.replaced else p.replaced + 1)
  }

  lemma {:induction false} AddUnbeaten(p: Pool, limit: nat, r: Record, c: seq<Hash>)
    requires !Has(p.entries, r.tx.wtxid) && |p.entries| < limit && c == Conflicts(p.entries, r.tx.inputs)
    requires !BeatsAll(p.entries, r, c)
    ensures Add(p, limit, r) == (p, Refused(RbfFailed))
  {
  }

  lemma {:induction false} AddFresh(p: Pool, limit: nat, r: Record)
    requires !Has(p.entries, r.tx.wtxid) && |p.entries| < limit && Conflicts(p.entries, r.tx.inputs) == []
    ensures Add(p, limit, r) == (Append(p, r), Added(r.tx.wtxid))
  {
    var c := Conflicts(p.entries, r.tx.inputs);
    assert BeatsAll(p.entries, r, c) && FirstRepeat(c) == |c|;
    AddReplaces(p, limit, r, c);
    WithoutNothing(p.entries);
  }

  lemma {:induction false} AddRepeated(p: Pool, limit: nat, r: Record, c: seq<Hash>, k: nat)
    requires !Has(p.entries, r.tx.wtxid) && |p.entries| < limit && c == Conflicts(p.entries, r.tx.inputs)
    requires BeatsAll(p.entries, r, c) && k == FirstRepeat(c) && k < |c|
    ensures Add(p, limit, r) ==
            (Pool(Without(p.entries, c[..k]), p.added, p.removed + k, p.replaced), Refused(TxNotFound(c[k])))
  {
  }

  lemma {:induction false} AddReplaces(p: Pool, limit: nat, r: Record, c: seq<Hash>)
    requires !Has(p.entries, r.tx.wtxid) && |p.entries| < limit && c == Conflicts(p.entries, r.tx.inputs)
    requires BeatsAll(p.entries, r, c) && |c| == FirstRepeat(c)
    ensures Add(p, limit, r) == (Replaced(p, r, c), Added(r.tx.wtxid))
  {
  }

  /** The re-add after the removals: it has no conflict left, so it appends and never replaces again. */
  lemma {:induction false} ReAddAppends(p: Pool, q: Pool, limit: nat, r: Record)
    requires WellFormed(p.entries) && !Has(p.entries, r.tx.wtxid) && |p.entries| < limit
    requires q.entries == Without(p.entries, Conflicts(p.entries, r.tx.inputs))
    ensures Conflicts(q.entries, r.tx.inputs) == []
    ensures Add(q, limit, r) == (Append(q, r), Added(r.tx.wtxid))
  {
    var c := Conflicts(p.entries, r.tx.inputs);
    NoConflictAfterRemoval(p.entries, r.tx.inputs);
    WithoutHas(p.entries, c, r.tx.wtxid);
    WithoutShorter(p.entries, c);
    AddFresh(q, limit, r);
  }

  lemma LiveConflicts(l: seq<Record>, inputs: seq<OutPoint>)
    requires WellFormed(l)
    ensures forall h :: h in Conflicts(l, inputs) ==> Has(l, h)
  {
    ConflictsAre(l, inputs);
  }

  /** Removing the beaten conflicts one by one and adding again is what a replacement amounts to. */
  lemma {:induction false} ReplacementOutcome(p: Pool, limit: nat, r: Record, c: seq<Hash>)
    requires WellFormed(p.entries) && !Has(p.entries, r.tx.wtxid) && |p.entries| < limit
    requires c == Conflicts(p.entries, r.tx.inputs) && c != [] && BeatsAll(p.entries, r, c)
    ensures var (q, missing) := DropAll(p, c);
            Add(p, limit, r) == if missing.Some? then (q, Refused(TxNotFound(missing.value)))
                                else Add(q.(replaced := q.replaced + 1), limit, r)
  {
    LiveConflicts(p.entries, r.tx.inputs);
    DropAllOutcome(p, c);
    if FirstRepeat(c) < |c| {
      AddRepeated(p, limit, r, c, FirstRepeat(c));
    } else {
      ReplacedAll(p, limit, r, c, DropAll(p, c).0);
    }
  }

  lemma {:induction false} ReplacementStops(p: Pool, limit: nat, r: Record, c: seq<Hash>, q: Pool, h: Hash)
    requires WellFormed(p.entries) && !Has(p.entries, r.tx.wtxid) && |p.entries| < limit
    requires c == Conflicts(p.entries, r.tx.inputs) && c != [] && BeatsAll(p.entries, r, c)
    requires (q, Some(h)) == DropAll(p, c)
    ensures Add(p, limit, r) == (q, Refused(TxNotFound(h)))
  {
    ReplacementOutcome(p, limit, r, c);
  }

  lemma {:induction false} ReplacementGoesOn(p: Pool, limit: nat, r: Record, c: seq<Hash>, q: Pool)
    requires WellFormed(p.entries) && !Has(p.entries, r.tx.wtxid) && |p.entries| < limit
    requires c == Conflicts(p.entries, r.tx.inputs) && c != [] && BeatsAll(p.entries, r, c)
    requires DropAll(p, c).1.None? && q == DropAll(p, c).0.(replaced := DropAll(p, c).0.replaced + 1)
    ensures |q.entries| < |p.entries| && Add(p, limit, r) == Add(q, limit, r)
  {
    ReplacementOutcome(p, limit, r, c);
    DropAllShrinks(p, c);
  }

  lemma {:induction false} ReplacedAll(p: Pool, limit: nat, r: Record, c: seq<Hash>, q: Pool)
    requires WellFormed(p.entries) && !Has(p.entries, r.tx.wtxid) && |p.entries| < limit
    requires c == Conflicts(p.entries, r.tx.inputs) && c != [] && BeatsAll(p.entries, r, c) && FirstRepeat(c) == |c|
    requires q == p.(entries := Without(p.entries, c[..|c|]), removed := p.removed + |c|)
    ensures Add(p, limit, r) == Add(q.(replaced := q.replaced + 1), limit, r)
  {
    assert c[..|c|] == c;
    AddReplaces(p, limit, r, c);
    ReAddAppends(p, q.(replaced := q.replaced + 1), limit, r);
  }

  lemma {:induction false} WithoutShorter(l: seq<Record>, ids: seq<Hash>)
    ensures |Without(l, ids)| <= |l|
  {
    if |l| > 0 { WithoutShorter(Init(l), ids); }
  }

  /**
   * An add that is refused leaves the pool alone, unless it beats every conflict but meets one twice:
   * then entries are lost and nothing is gained.
   */
  lemma AtomicIff(p: Pool, limit: nat, r: Record)
    requires WellFormed(p.entries)
    ensures var c := Conflicts(p.entries, r.tx.inputs);
            var (q, result) := Add(p, limit, r);
            (result.Refused? ==> q == p) <==>
              (Has(p.entries, r.tx.wtxid) || |p.entries| >= limit || !BeatsAll(p.entries, r, c) || Distinct(c))
  {
    var c := Conflicts(p.entries, r.tx.inputs);
    var k := FirstRepeat(c);
    if k < |c| { assert c[k] in c[..k]; }
  }

  // ---- runs ----

  datatype Op = AddOp(r: Record) | RemoveOp(id: Hash)

  function Step(p: Pool, limit: nat, op: Op): Pool
  {
    match op
    case AddOp(r) => Add(p, limit, r).0
    case RemoveOp(h) => if Has(p.entries, h) then Drop(p, h) else p
  }

  function Run(p: Pool, limit: nat, ops: seq<Op>): Pool
  {
    if |ops| == 0 then p else Step(Run(p, limit, Init(ops)), limit, Last(ops))
  }

  /** Ids and spent outpoints are unique, the limit holds, and the counters account for every entry. */
  predicate Sound(p: Pool, limit: nat)
  {
    && WellFormed(p.entries)
    && |p.entries| <= limit
    && p.added == p.removed + |p.entries|
  }

  lemma DropKeepsBalance(p: Pool, h: Hash)
    requires WellFormed(p.entries) && Has(p.entries, h)
    ensures WellFormed(Drop(p, h).entries)
    ensures |Drop(p, h).entries| == |p.entries| - 1
  {
    RemoveKeepsWellFormed(p.entries, h);
    RemoveIsCut(p.entries, Position(p.entries, h));
  }

  lemma {:induction false} DropAllKeepsBalance(p: Pool, ids: seq<Hash>)
    requires WellFormed(p.entries)
    ensures var q := DropAll(p, ids).0;
            && WellFormed(q.entries)
            && |q.entries| + q.removed == |p.entries| + p.removed
            && |q.entries| <= |p.entries|
  {
    if |ids| > 0 {
      DropAllKeepsBalance(p, Init(ids));
      var (q, missing) := DropAll(p, Init(ids));
      if missing.None? && Has(q.entries, Last(ids)) { DropKeepsBalance(q, Last(ids)); }
    }
  }

  lemma {:induction false} AppendKeepsWellFormed(l: seq<Record>, r: Record)
    requires WellFormed(l) && !Has(l, r.tx.wtxid) && Conflicts(l, r.tx.inputs) == []
    ensures WellFormed(l + [r])
  {
    ConflictsAre(l, r.tx.inputs);
    forall e | e in l ensures forall o :: o in e.tx.inputs ==> o !in r.tx.inputs {
      assert e.tx.wtxid !in Conflicts(l, r.tx.inputs);
    }
    HasIndex(l, r.tx.wtxid);
  }

  lemma AddKeepsSound(p: Pool, limit: nat, r: Record)
    requires Sound(p, limit)
    ensures Sound(Add(p, limit, r).0, limit)
  {
    var c := Conflicts(p.entries, r.tx.inputs);
    if !Has(p.entries, r.tx.wtxid) && |p.entries| < limit && BeatsAll(p.entries, r, c) {
      ConflictsAre(p.entries, r.tx.inputs);
      DropAllOutcome(p, c);
      DropAllKeepsBalance(p, c);
      if FirstRepeat(c) == |c| {
        assert c[..|c|] == c;
        ReAddAppends(p, DropAll(p, c).0, limit, r);
        WithoutHas(p.entries, c, r.tx.wtxid);
        AppendKeepsWellFormed(Without(p.entries, c), r);
      }
    }
  }

  /** Every reachable pool is sound. */
  lemma {:induction false} RunKeepsSound(limit: nat, ops: seq<Op>)
    ensures Sound(Run(EMPTY, limit, ops), limit)
  {
    if |ops| > 0 {
      var p := Run(EMPTY, limit, Init(ops));
      RunKeepsSound(limit, Init(ops));
      match Last(ops)
      case AddOp(r) => AddKeepsSound(p, limit, r);
      case RemoveOp(h) => if Has(p.entries, h) { DropKeepsBalance(p, h); }
    }
  }

  // ---- what an offer does, told on the fields of the entries ----

  /** The entry spends an output that the offer spends too. */
  predicate Shares(e: Record, r: Record)
  {
    exists o :: o in e.tx.inputs && o in r.tx.inputs
  }

  /** It spends the outputs of two of the offer's inputs. */
  predicate MetTwice(e: Record, inputs: seq<OutPoint>)
  {
    exists i, j :: 0 <= i < j < |inputs| && inputs[i] in e.tx.inputs && inputs[j] in e.tx.inputs
  }

  predicate Known(l: seq<Record>, h: Hash)
  {
    exists e :: e in l && e.tx.wtxid == h
  }

  /** The entries that share nothing with the offer, in their order. */
  function Kept(l: seq<Record>, r: Record): seq<Record>
  {
    if |l| == 0 then []
    else Kept(Init(l), r) + if Shares(Last(l), r) then [] else [Last(l)]
  }

  lemma HasIsKnown(l: seq<Record>, h: Hash)
    ensures Has(l, h) <==> Known(l, h)
  {
    HasIndex(l, h);
    if Has(l, h) { assert Lookup(l, h) in l; }
  }

  lemma ConflictIffShares(l: seq<Record>, r: Record, e: Record)
    requires WellFormed(l) && e in l
    ensures e.tx.wtxid in Conflicts(l, r.tx.inputs) <==> Shares(e, r)
  {
    ConflictsAre(l, r.tx.inputs);
    if Shares(e, r) {
      var o :| o in e.tx.inputs && o in r.tx.inputs;
    }
    if e.tx.wtxid in Conflicts(l, r.tx.inputs) {
      var e' :| e' in l && e'.tx.wtxid == e.tx.wtxid && exists o :: o in r.tx.inputs && o in e'.tx.inputs;
      SameIdSameEntry(l, e, e');
    }
  }

  lemma SameIdSameEntry(l: seq<Record>, a: Record, b: Record)
    requires DistinctIds(l) && a in l && b in l && a.tx.wtxid == b.tx.wtxid
    ensures a == b
  {
    var i :| 0 <= i < |l| && l[i] == a;
    var j :| 0 <= j < |l| && l[j] == b;
  }

  lemma {:induction false} WithoutIsKept(l: seq<Record>, r: Record, ids: seq<Hash>)
    requires forall e :: e in l ==> (e.tx.wtxid in ids <==> Shares(e, r))
    ensures Without(l, ids) == Kept(l, r)
  {
    if |l| > 0 {
      assert Last(l) in l && forall e :: e in Init(l) ==> e in l;
      WithoutIsKept(Init(l), r, ids);
    }
  }

  /** Removing the conflicts leaves exactly the entries that share nothing with the offer. */
  lemma ConflictsOut(l: seq<Record>, r: Record)
    requires WellFormed(l)
    ensures Without(l, Conflicts(l, r.tx.inputs)) == Kept(l, r)
  {
    forall e | e in l ensures e.tx.wtxid in Conflicts(l, r.tx.inputs) <==> Shares(e, r) { ConflictIffShares(l, r, e); }
    WithoutIsKept(l, r, Conflicts(l, r.tx.inputs));
  }

  lemma BeatsAllMeans(l: seq<Record>, r: Record)
    requires WellFormed(l)
    ensures BeatsAll(l, r, Conflicts(l, r.tx.inputs)) <==> forall e :: e in l && Shares(e, r) ==> Beats(r, e)
  {
    var c := Conflicts(l, r.tx.inputs);
    forall e | e in l ensures e.tx.wtxid in c <==> Shares(e, r) { ConflictIffShares(l, r, e); }
    forall e | e in l ensures Has(l, e.tx.wtxid) && Lookup(l, e.tx.wtxid) == e { LookupSelf(l, e); }
    forall h | Has(l, h) ensures Lookup(l, h) in l && Lookup(l, h).tx.wtxid == h {}
  }

  lemma LookupSelf(l: seq<Record>, e: Record)
    requires DistinctIds(l) && e in l
    ensures Has(l, e.tx.wtxid) && Lookup(l, e.tx.wtxid) == e
  {
    HasIsKnown(l, e.tx.wtxid);
    SameIdSameEntry(l, e, Lookup(l, e.tx.wtxid));
  }

  /** One conflict for each input that is spent already, in the order of the inputs. */
  lemma {:induction false} ConflictsConcat(l: seq<Record>, a: seq<OutPoint>, b: seq<OutPoint>)
    ensures Conflicts(l, a + b) == Conflicts(l, a) + Conflicts(l, b)
  {
    if |b| == 0 {
      assert a + b == a;
    } else {
      ConflictsConcat(l, a, Init(b));
      assert Init(a + b) == a + Init(b) && Last(a + b) == Last(b);
    }
  }

  lemma ConflictsOfOne(l: seq<Record>, o: OutPoint, e: Record)
    requires WellFormed(l) && e in l && o in e.tx.inputs
    ensures Conflicts(l, [o]) == [e.tx.wtxid]
  {
    HolderSpends(l, o);
    assert Init([o]) == [];
  }

  /** A conflict is listed twice exactly when some entry spends the outputs of two inputs. */
  lemma {:induction false} RepeatsMean(l: seq<Record>, inputs: seq<OutPoint>)
    requires WellFormed(l)
    ensures Distinct(Conflicts(l, inputs)) <==> forall e :: e in l ==> !MetTwice(e, inputs)
  {
    if |inputs| > 0 {
      var init, o := Init(inputs), Last(inputs);
      RepeatsMean(l, init);
      HolderSpends(l, o);
      assert inputs == init + [o];
      forall e | e in l ensures MetTwice(e, inputs) <==>
                                MetTwice(e, init) || (Holder(l, o) == Some(e.tx.wtxid) && e.tx.wtxid in Conflicts(l, init))
      {
        MetTwiceSnoc(l, e, init, o);
      }
      if Holder(l, o).Some? {
        HolderIsEntry(l, o);
        DistinctSnoc(Conflicts(l, init), Holder(l, o).value);
      }
    }
  }

  lemma HolderIsEntry(l: seq<Record>, o: OutPoint)
    requires WellFormed(l) && Holder(l, o).Some?
    ensures exists e :: e in l && e.tx.wtxid == Holder(l, o).value
  {
    HolderSpends(l, o);
    assert Lookup(l, Holder(l, o).value) in l;
  }

  lemma MetTwiceSnoc(l: seq<Record>, e: Record, init: seq<OutPoint>, o: OutPoint)
    requires WellFormed(l) && e in l
    ensures MetTwice(e, init + [o]) <==>
      MetTwice(e, init) || (Holder(l, o) == Some(e.tx.wtxid) && e.tx.wtxid in Conflicts(l, init))
  {
    var all := init + [o];
    HolderSpends(l, o);
    MetOnce(l, e, init);
    if MetTwice(e, init) {
      var i, j :| 0 <= i < j < |init| && init[i] in e.tx.inputs && init[j] in e.tx.inputs;
      assert all[i] == init[i] && all[j] == init[j];
    }
    if o in e.tx.inputs && e.tx.wtxid in Conflicts(l, init) {
      var i :| 0 <= i < |init| && init[i] in e.tx.inputs;
      assert all[i] == init[i] && all[|init|] == o;
    }
    if MetTwice(e, all) {
      var i, j :| 0 <= i < j < |all| && all[i] in e.tx.inputs && all[j] in e.tx.inputs;
      assert all[i] == init[i];
      if j < |init| { assert all[j] == init[j]; }
    }
  }

  lemma MetOnce(l: seq<Record>, e: Record, inputs: seq<OutPoint>)
    requires WellFormed(l) && e in l
    ensures e.tx.wtxid in Conflicts(l, inputs) <==> exists i :: 0 <= i < |inputs| && inputs[i] in e.tx.inputs
  {
    ConflictsAre(l, inputs);
    if e.tx.wtxid in Conflicts(l, inputs) {
      var e' :| e' in l && e'.tx.wtxid == e.tx.wtxid && exists o :: o in inputs && o in e'.tx.inputs;
      SameIdSameEntry(l, e, e');
      var o :| o in inputs && o in e.tx.inputs;
      var i :| 0 <= i < |inputs| && inputs[i] == o;
    }
    if i :| 0 <= i < |inputs| && inputs[i] in e.tx.inputs { assert inputs[i] in inputs; }
  }

  lemma DistinctSnoc(s: seq<Hash>, h: Hash)
    ensures Distinct(s + [h]) <==> Distinct(s) && h !in s
  {
    var t := s + [h];
    if Distinct(t) {
      forall i, j | 0 <= i < j < |s| ensures s[i] != s[j] { assert t[i] == s[i] && t[j] == s[j]; }
      forall i | 0 <= i < |s| ensures s[i] != h { assert t[i] == s[i] && t[|s|] == h; }
    }
  }

  /**
   * An offer on the fields alone. It is refused, in this order, if its id is known, if the pool is full,
   * if an entry it shares an output with is not beaten; and if it meets such an entry twice, in which case
   * entries are lost. Otherwise the entries it shares an output with leave, all others stay in their
   * order, it enters last, and the counters follow.
   */
  lemma OfferDecides(p: Pool, limit: nat, r: Record)
    requires Sound(p, limit)
    ensures var l, h := p.entries, r.tx.wtxid;
            var (q, result) := Add(p, limit, r);
            if Known(l, h) then (q, result) == (p, Refused(TxExists(h)))
            else if |l| >= limit then (q, result) == (p, Refused(MempoolFull(limit)))
            else if exists e :: e in l && Shares(e, r) && !Beats(r, e) then (q, result) == (p, Refused(RbfFailed))
            else if exists e :: e in l && MetTwice(e, r.tx.inputs) then result.Refused? && result.error.TxNotFound?
            else
              && result == Added(h) && q.entries == Kept(l, r) + [r] && q.added == p.added + 1
              && q.removed == p.removed + |l| - |Kept(l, r)|
              && q.replaced == p.replaced + if |Kept(l, r)| < |l| then 1 else 0
  {
    var l, h, c := p.entries, r.tx.wtxid, Conflicts(p.entries, r.tx.inputs);
    HasIsKnown(l, h);
    if !Known(l, h) && |l| < limit {
      BeatsAllMeans(l, r);
      RepeatsMean(l, r.tx.inputs);
      if BeatsAll(l, r, c) {
        if Distinct(c) {
          Accepted(p, limit, r);
        } else {
          AddRepeated(p, limit, r, c, FirstRepeat(c));
        }
      }
    }
  }

  lemma Accepted(p: Pool, limit: nat, r: Record)
    requires Sound(p, limit) && !Has(p.entries, r.tx.wtxid) && |p.entries| < limit
    requires var c := Conflicts(p.entries, r.tx.inputs); BeatsAll(p.entries, r, c) && Distinct(c)
    ensures var l, (q, result) := p.entries, Add(p, limit, r);
            && result == Added(r.tx.wtxid) && q.entries == Kept(l, r) + [r] && q.added == p.added + 1
            && q.removed == p.removed + |l| - |Kept(l, r)|
            && q.replaced == p.replaced + if |Kept(l, r)| < |l| then 1 else 0
  {
    var c := Conflicts(p.entries, r.tx.inputs);
    AddReplaces(p, limit, r, c);
    AddKeepsSound(p, limit, r);
    ConflictsOut(p.entries, r);
  }

  /** The tie-break: of two offers for one output with the same fee density, the higher blue score stays. */
  lemma BlueScoreBreaksTie(limit: nat, a: Record, b: Record, o: OutPoint, x: u64, y: u64)
    requires limit >= 2 && a.tx.inputs == [o] && b.tx.inputs == [o] && a.tx.wtxid != b.tx.wtxid
    requires a.feeDensity == b.feeDensity && a.blueScore == Some(x) && b.blueScore == Some(y) && x < y
    ensures AddMany(EMPTY, limit, [a, b]).entries == [b] && AddMany(EMPTY, limit, [b, a]).entries == [b]
  {
    BeatsMeans(b, a);
    TwoCompete(o, a, b);
    TwoCompete(o, b, a);
    BestOfferWins(EMPTY, limit, o, [a, b]);
    BestOfferWins(EMPTY, limit, o, [b, a]);
    assert Init([a, b]) == [a] && Init([b, a]) == [b];
    assert [] + [b] == [b];
  }

  // ---- competing offers ----

  function AddMany(p: Pool, limit: nat, offers: seq<Record>): Pool
  {
    if |offers| == 0 then p else Add(AddMany(p, limit, Init(offers)), limit, Last(offers)).0
  }

  /** The offer no other offer beats. */
  function Best(offers: seq<Record>): (b: Record)
    requires |offers| > 0
    ensures b in offers
  {
    if |offers| == 1 then offers[0]
    else if Beats(Last(offers), Best(Init(offers))) then Last(offers)
    else Best(Init(offers))
  }

  /** An id stands for one offer, with the same fee data each time. */
  predicate Consistent(offers: seq<Record>)
  {
    forall a, b :: a in offers && b in offers && a.tx.wtxid == b.tx.wtxid ==> a == b
  }

  lemma {:induction false} BestBeatsAll(offers: seq<Record>)
    requires |offers| > 0 && Consistent(offers)
    ensures forall r :: r in offers && r != Best(offers) ==> Beats(Best(offers), r)
  {
    if |offers| > 1 {
      var init, last := Init(offers), Last(offers);
      assert forall r :: r in offers <==> r in init || r == last;
      BestBeatsAll(init);
    }
  }

  /** The best offer depends on which offers there are, not on their order or number. */
  lemma {:induction false} BestIsUnique(xs: seq<Record>, ys: seq<Record>)
    requires |xs| > 0 && |ys| > 0 && Consistent(xs)
    requires forall r :: r in xs <==> r in ys
    ensures Best(xs) == Best(ys)
  {
    BestBeatsAll(xs);
    BestBeatsAll(ys);
  }

  /** Every offer spends o and nothing else; nothing in the pool spends o or has an offer's id. */
  predicate Competing(p: Pool, o: OutPoint, offers: seq<Record>)
  {
    && Consistent(offers)
    && (forall r :: r in offers ==> r.tx.inputs == [o] && !Has(p.entries, r.tx.wtxid))
    && (forall e :: e in p.entries ==> o !in e.tx.inputs)
  }

  /** One offer of a spender of o against the current holder of o, the last entry. */
  lemma {:induction false} OfferAgainstHolder(p: Pool, base: seq<Record>, b: Record, r: Record, limit: nat, o: OutPoint)
    requires p.entries == base + [b] && WellFormed(p.entries) && |base| + 2 <= limit
    requires b.tx.inputs == [o] && r.tx.inputs == [o] && !Has(base, r.tx.wtxid)
    requires r.tx.wtxid == b.tx.wtxid ==> r == b
    ensures Add(p, limit, r).0.entries == base + [if Beats(r, b) then r else b]
  {
    HasAppend(base, b, r.tx.wtxid);
    if r != b {
      ConflictWithLast(base, b, r, o);
      WithoutOnly(base, b);
    }
  }

  lemma ConflictWithLast(base: seq<Record>, b: Record, r: Record, o: OutPoint)
    requires b.tx.inputs == [o]
    ensures Conflicts(base + [b], [o]) == [b.tx.wtxid] && FirstRepeat([b.tx.wtxid]) == 1
    ensures BeatsAll(base + [b], r, [b.tx.wtxid]) <==> Beats(r, b)
  {
    var l := base + [b];
    HasAppend(base, b, b.tx.wtxid);
    assert Init(l) == base && Last(l) == b && Init([o]) == [] && Last([o]) == o;
    assert Holder(l, o) == Some(b.tx.wtxid);
    assert Lookup(l, b.tx.wtxid) == b && b.tx.wtxid in [b.tx.wtxid];
  }

  lemma WithoutOnly(base: seq<Record>, b: Record)
    requires DistinctIds(base + [b])
    ensures Without(base + [b], [b.tx.wtxid]) == base
  {
    var l := base + [b];
    assert Init(l) == base && Last(l) == b;
    NotBefore(l);
    WithoutAbsent(base, b.tx.wtxid);
  }

  lemma {:induction false} WithoutAbsent(l: seq<Record>, h: Hash)
    requires !Has(l, h)
    ensures Without(l, [h]) == l
  {
    if |l| > 0 {
      assert l == Init(l) + [Last(l)];
      WithoutAbsent(Init(l), h);
    }
  }

  /** With room for two more entries, the best of all offers for o ends up in the pool, whatever the order. */
  lemma {:induction false} BestOfferWins(p: Pool, limit: nat, o: OutPoint, offers: seq<Record>)
    requires Sound(p, limit) && |p.entries| + 2 <= limit
    requires |offers| > 0 && Competing(p, o, offers)
    ensures Sound(AddMany(p, limit, offers), limit)
    ensures AddMany(p, limit, offers).entries == p.entries + [Best(offers)]
  {
    var init, r := Init(offers), Last(offers);
    assert forall x :: x in offers <==> x in init || x == r;
    if |offers| == 1 {
      AddMany1(p, limit, o, r);
      assert AddMany(p, limit, init) == p;
      AddKeepsSound(p, limit, r);
    } else {
      BestOfferWins(p, limit, o, init);
      var q := AddMany(p, limit, init);
      OfferAgainstHolder(q, p.entries, Best(init), r, limit, o);
      AddKeepsSound(q, limit, r);
    }
  }

  /** The first spender of o is simply appended. */
  lemma AddMany1(p: Pool, limit: nat, o: OutPoint, r: Record)
    requires Sound(p, limit) && |p.entries| < limit
    requires Competing(p, o, [r])
    ensures Add(p, limit, r).0.entries == p.entries + [r]
  {
    assert r in [r];
    HolderSpends(p.entries, o);
    assert Init([o]) == [] && Last([o]) == o;
    assert Conflicts(p.entries, [o]) == [];
    WithoutNothing(p.entries);
  }

  /** Arrival order does not matter when there is room for two. */
  lemma {:induction false} ArrivalOrderIrrelevant(p: Pool, limit: nat, o: OutPoint, xs: seq<Record>, ys: seq<Record>)
    requires Sound(p, limit) && |p.entries| + 2 <= limit
    requires |xs| > 0 && |ys| > 0 && Competing(p, o, xs)
    requires forall r :: r in xs <==> r in ys
    ensures AddMany(p, limit, xs).entries == AddMany(p, limit, ys).entries
  {
    BestOfferWins(p, limit, o, xs);
    BestOfferWins(p, limit, o, ys);
    BestIsUnique(xs, ys);
  }

  /** With room for only one, a full pool refuses before it looks at conflicts: the first offer stays. */
  lemma {:induction false} FirstOfferStays(p: Pool, limit: nat, o: OutPoint, offers: seq<Record>)
    requires Sound(p, limit) && |p.entries| + 1 == limit
    requires |offers| > 0 && Competing(p, o, offers)
    ensures AddMany(p, limit, offers).entries == p.entries + [offers[0]]
  {
    if |offers| == 1 {
      assert offers == [offers[0]] && Init(offers) == [];
      AddMany1(p, limit, o, offers[0]);
    } else {
      assert forall x :: x in Init(offers) ==> x in offers;
      FirstOfferStays(p, limit, o, Init(offers));
    }
  }

  /** So with two different offers the outcome is independent of the order exactly when there is room for two. */
  lemma OrderMattersIff(p: Pool, limit: nat, o: OutPoint, a: Record, b: Record)
    requires Sound(p, limit) && |p.entries| < limit && a != b && Competing(p, o, [a, b])
    ensures AddMany(p, limit, [a, b]).entries == AddMany(p, limit, [b, a]).entries <==> |p.entries| + 2 <= limit
  {
    if |p.entries| + 2 <= limit {
      ArrivalOrderIrrelevant(p, limit, o, [a, b], [b, a]);
    } else {
      FirstOfferStays(p, limit, o, [a, b]);
      FirstOfferStays(p, limit, o, [b, a]);
      assert (p.entries + [a])[|p.entries|] != (p.entries + [b])[|p.entries|];
    }
  }

  // ---- the two failures happen on pools the operations reach ----

  lemma BothInputsConflict(a: Record, o1: OutPoint, o2: OutPoint)
    requires a.tx.inputs == [o1, o2]
    ensures Conflicts([a], [o1, o2]) == [a.tx.wtxid, a.tx.wtxid] && Conflicts([], [o1, o2]) == []
  {
    ConflictsAppend([], [], o1);
    ConflictsAppend([], [o1], o2);
    ConflictsAppend([a], [], o1);
    ConflictsAppend([a], [o1], o2);
    assert [] + [o1] == [o1] && [o1] + [o2] == [o1, o2];
  }

  lemma EnterEmpty(limit: nat, a: Record, o1: OutPoint, o2: OutPoint)
    requires limit > 0 && a.tx.inputs == [o1, o2]
    ensures Add(EMPTY, limit, a) == (Pool([a], 1, 0, 0), Added(a.tx.wtxid))
  {
    BothInputsConflict(a, o1, o2);
    assert Without([], []) + [a] == [a];
  }

  lemma RepeatedOnce(h: Hash)
    ensures FirstRepeat([h, h]) == 1
  {
    assert [h, h][0] == [h, h][1];
  }

  /**
   * An empty pool takes an entry that spends two outputs. A better offer for the same two outputs is
   * then refused because the entry it beat is no longer found, and the pool is left empty.
   */
  lemma ReplacementLosesEntry(limit: nat, a: Record, b: Record, o1: OutPoint, o2: OutPoint)
    requires limit >= 2 && a.tx.inputs == [o1, o2] && b.tx.inputs == [o1, o2]
    requires Beats(b, a) && a.tx.wtxid != b.tx.wtxid
    ensures Run(EMPTY, limit, [AddOp(a)]) == Pool([a], 1, 0, 0)
    ensures Add(Pool([a], 1, 0, 0), limit, b) == (Pool([], 1, 1, 0), Refused(TxNotFound(a.tx.wtxid)))
  {
    EnterEmpty(limit, a, o1, o2);
    assert Init([AddOp(a)]) == [];
    assert Run(EMPTY, limit, []) == EMPTY;
    LostOnRepeat(Pool([a], 1, 0, 0), limit, a, b, o1, o2);
  }

  lemma {:induction false} LostOnRepeat(p: Pool, limit: nat, a: Record, b: Record, o1: OutPoint, o2: OutPoint)
    requires limit >= 2 && p.entries == [a] && a.tx.inputs == [o1, o2] && b.tx.inputs == [o1, o2]
    requires Beats(b, a) && a.tx.wtxid != b.tx.wtxid
    ensures Add(p, limit, b) == (p.(entries := [], removed := p.removed + 1), Refused(TxNotFound(a.tx.wtxid)))
  {
    var h, l := a.tx.wtxid, p.entries;
    BothInputsConflict(a, o1, o2);
    RepeatedOnce(h);
    assert [h, h][..1] == [h];
    OnlyEntry(l, a, b.tx.wtxid);
    BeatsOnly(l, b, h);
    AddRepeated(p, limit, b, [h, h], 1);
  }

  lemma BeatsOnly(l: seq<Record>, b: Record, h: Hash)
    requires Has(l, h) && Beats(b, Lookup(l, h))
    ensures BeatsAll(l, b, [h, h])
  {
  }

  lemma OnlyEntry(l: seq<Record>, a: Record, k: Hash)
    requires l == [a] && k != a.tx.wtxid
    ensures Has(l, a.tx.wtxid) && Lookup(l, a.tx.wtxid) == a && !Has(l, k)
    ensures Without(l, [a.tx.wtxid]) == []
  {
    assert Init(l) == [] && Last(l) == a;
    assert !Has([], k);
    assert Without([], [a.tx.wtxid]) == [];
  }

  /** An empty pool with room for one keeps the worse of two competing offers when it comes first. */
  lemma FullPoolKeepsWorseOffer(a: Record, b: Record, o: OutPoint)
    requires a.tx.inputs == [o] && b.tx.inputs == [o] && Beats(b, a) && a.tx.wtxid != b.tx.wtxid
    ensures AddMany(EMPTY, 1, [a, b]).entries == EMPTY.entries + [a]
    ensures AddMany(EMPTY, 1, [b, a]).entries == EMPTY.entries + [b]
  {
    TwoCompete(o, a, b);
    TwoCompete(o, b, a);
    FirstOfferStays(EMPTY, 1, o, [a, b]);
    FirstOfferStays(EMPTY, 1, o, [b, a]);
  }

  lemma TwoCompete(o: OutPoint, a: Record, b: Record)
    requires a.tx.inputs == [o] && b.tx.inputs == [o] && a.tx.wtxid != b.tx.wtxid
    ensures Sound(EMPTY, 1) && Competing(EMPTY, o, [a, b])
  {
    assert forall r :: r in [a, b] <==> r == a || r == b;
  }

  const PAIR: seq<OutPoint> := [OutPoint(7, 0), OutPoint(7, 1)]
  const CHEAP: Record := Record(CellTx(1, 1, PAIR, 100), 10, 0, None, 1)
  const DEAR: Record := Record(CellTx(2, 2, PAIR, 100), 20, 0, None, 2)

  /** Such entries exist: here the pool has limit five and the second offer pays twice the fee. */
  lemma EntryLostInPoolOfFive()
    ensures var p := Run(EMPTY, 5, [AddOp(CHEAP)]);
            p.entries == [CHEAP] && Add(p, 5, DEAR).0.entries == [] && Add(p, 5, DEAR).1 == Refused(TxNotFound(1))
  {
    ReplacementLosesEntry(5, CHEAP, DEAR, OutPoint(7, 0), OutPoint(7, 1));
  }
}
