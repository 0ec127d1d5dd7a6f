/** Whole runs of a cached store: any operations, in any order, with evictions anywhere. */
module CacheRuns {
  import opened Cache
  import opened Keyspace
  import opened Outcomes
  import opened TypedStore

  /** Where a write goes: straight to the store, or onto the pending batch. */
  datatype Writer = Direct | Batch

  datatype Event<K, V> =
    | Reads(key: K)
    | Writes(writer: Writer, key: K, value: V)
    | WritesMany(writer: Writer, pairs: seq<(K, V)>)
    | WritesUncached(writer: Writer, pairs: seq<(K, V)>)
    | Deletes(writer: Writer, key: K)
    | DeletesMany(writer: Writer, keys: seq<K>)
    | DeletesAll(writer: Writer)
    | Evicts(key: K)
    | Commits
  {
    predicate HasWriter()
    {
      Writes? || WritesMany? || WritesUncached? || Deletes? || DeletesMany? || DeletesAll?
    }
  }

  datatype State<K, V> = State(items: map<K, V>, store: Store, batch: seq<Op>)
  {
    /** The store as it will be once the batch is committed. */
    function Overlay(): Store
    {
      ApplyBatch(store, batch)
    }
  }

  function Sent<K, V>(st: State<K, V>, writer: Writer, ops: seq<Op>): State<K, V>
  {
    if writer == Direct then st.(store := ApplyBatch(st.store, ops)) else st.(batch := st.batch + ops)
  }

  /** The operations an event hands to its writer; a prefix without a successor panics before it hands over any. */
  function OpsOf<K, V>(sp: Space<K, V>, e: Event<K, V>): seq<Op>
  {
    match e
    case Writes(_, k, v) => [Put(sp.PathOf(k), sp.codec.encode(v))]
    case WritesMany(_, pairs) => PutOps(sp, pairs)
    case WritesUncached(_, pairs) => PutOps(sp, pairs)
    case Deletes(_, k) => [Op.Delete(sp.PathOf(k))]
    case DeletesMany(_, keys) => DeleteOps(sp, keys)
    case DeletesAll(_) => if NextPrefix(sp.prefix).Some? then [DeleteRange(sp.prefix, NextPrefix(sp.prefix).value)] else []
    case _ => []
  }

  /** What a read returns. */
  function Observe<K, V>(sp: Space<K, V>, st: State<K, V>, k: K): ReadResult<V>
  {
    if k in st.items then Found(st.items[k]) else sp.Lookup(st.store, k)
  }

  function ItemsAfter<K, V>(sp: Space<K, V>, st: State<K, V>, e: Event<K, V>): map<K, V>
  {
    match e
    case Reads(k) => if Observe(sp, st, k).Found? then st.items[k := Observe(sp, st, k).value] else st.items
    case Writes(_, k, v) => st.items[k := v]
    case WritesMany(_, pairs) => Updated(st.items, pairs)
    case WritesUncached(_, _) => map[]
    case Deletes(_, k) => st.items - {k}
    case DeletesMany(_, keys) => Without(st.items, keys)
    case DeletesAll(_) => map[]
    case Evicts(k) => st.items - {k}
    case Commits => st.items
  }

  function Step<K, V>(sp: Space<K, V>, st: State<K, V>, e: Event<K, V>): State<K, V>
  {
    var next := st.(items := ItemsAfter(sp, st, e));
    if e.HasWriter() then Sent(next, e.writer, OpsOf(sp, e))
    else if e.Commits? then next.(store := st.Overlay(), batch := [])
    else next
  }

  function Run<K, V>(sp: Space<K, V>, st: State<K, V>, es: seq<Event<K, V>>): State<K, V>
  {
    if es == [] then st else Step(sp, Run(sp, st, es[..|es| - 1]), es[|es| - 1])
  }

  /** One step up to evictions: the new cache holds some of the items of the step. */
  ghost predicate StepsTo<K(!new), V>(sp: Space<K, V>, st: State<K, V>, e: Event<K, V>, st': State<K, V>)
  {
    var next := Step(sp, st, e);
    st'.store == next.store && st'.batch == next.batch && Within(st'.items, next.items)
  }

  // ---- agreement with the committed future ----

  /** The store after an event, told without operations. */
  function StoreAfter<K, V>(sp: Space<K, V>, s: Store, e: Event<K, V>): Store
  {
    match e
    case Writes(_, k, v) => s[sp.PathOf(k) := sp.codec.encode(v)]
    case WritesMany(_, pairs) => PutAll(sp, s, pairs)
    case WritesUncached(_, pairs) => PutAll(sp, s, pairs)
    case Deletes(_, k) => s - {sp.PathOf(k)}
    case DeletesMany(_, keys) => DeleteAllOf(sp, s, keys)
    case DeletesAll(_) => if NextPrefix(sp.prefix).Some? then DropPrefix(s, sp.prefix) else s
    case _ => s
  }

  lemma OneOp(s: Store, op: Op)
    ensures ApplyBatch(s, [op]) == Apply(s, op)
  {
    assert [op][..0] == [];
  }

  lemma OpsAre<K, V>(sp: Space<K, V>, s: Store, e: Event<K, V>)
    ensures ApplyBatch(s, OpsOf(sp, e)) == StoreAfter(sp, s, e)
  {
    match e
    case Writes(_, k, v) => OneOp(s, Put(sp.PathOf(k), sp.codec.encode(v)));
    case WritesMany(_, pairs) => PutOpsPutAll(sp, s, pairs);
    case WritesUncached(_, pairs) => PutOpsPutAll(sp, s, pairs);
    case Deletes(_, k) => OneOp(s, Op.Delete(sp.PathOf(k)));
    case DeletesMany(_, keys) => DeleteOpsDeleteAll(sp, s, keys);
    case DeletesAll(_) =>
      if NextPrefix(sp.prefix).Some? {
        OneOp(s, DeleteRange(sp.prefix, NextPrefix(sp.prefix).value));
        DeletesPrefix(s, sp.prefix);
      }
    case _ =>
  }

  /** A write or delete, direct without a batch or staged, changes the committed future by its effect. */
  lemma OverlayAfter<K, V>(sp: Space<K, V>, st: State<K, V>, e: Event<K, V>)
    requires e.HasWriter() ==> e.writer == Batch || st.batch == []
    ensures Step(sp, st, e).Overlay() == StoreAfter(sp, st.Overlay(), e)
  {
    if e.HasWriter() {
      OpsAre(sp, st.Overlay(), e);
      ApplyConcat(st.store, st.batch, OpsOf(sp, e));
    }
  }

  /** The pending batch does not change what is stored for k. */
  predicate LeftAlone<K, V>(sp: Space<K, V>, st: State<K, V>, k: K)
  {
    (sp.PathOf(k) in st.store <==> sp.PathOf(k) in st.Overlay())
    && (sp.PathOf(k) in st.store ==> st.store[sp.PathOf(k)] == st.Overlay()[sp.PathOf(k)])
  }

  /** Reads that miss find keys the batch leaves alone, and nothing is written directly past a pending batch. */
  predicate SafeStep<K, V>(sp: Space<K, V>, st: State<K, V>, e: Event<K, V>)
  {
    && (e.Reads? ==> e.key in st.items || LeftAlone(sp, st, e.key))
    && (e.HasWriter() ==> e.writer == Batch || st.batch == [])
  }

  predicate SafeRun<K, V>(sp: Space<K, V>, st: State<K, V>, es: seq<Event<K, V>>)
  {
    es == [] || (SafeRun(sp, st, es[..|es| - 1]) && SafeStep(sp, Run(sp, st, es[..|es| - 1]), es[|es| - 1]))
  }

  lemma ItemsAgree<K(!new), V(!new)>(sp: Space<K, V>, st: State<K, V>, e: Event<K, V>)
    requires Faithful(sp.codec) && Agrees(sp, st.items, st.Overlay()) && SafeStep(sp, st, e)
    ensures Agrees(sp, ItemsAfter(sp, st, e), StoreAfter(sp, st.Overlay(), e))
  {
    var s := st.Overlay();
    match e
    case Writes(_, k, v) => AgreesAfterPut(sp, st.items, s, st.items[k := v], k, v);
    case WritesMany(_, pairs) => AgreesAfterPuts(sp, st.items, s, pairs);
    case Deletes(_, k) => AgreesAfterDelete(sp, st.items, s, k);
    case DeletesMany(_, keys) => AgreesAfterDeletes(sp, st.items, s, keys);
    case _ =>
  }

  /** A safe step keeps every cached value the committed future's, whatever is evicted. */
  lemma StepAgrees<K(!new), V(!new)>(sp: Space<K, V>, st: State<K, V>, e: Event<K, V>, st': State<K, V>)
    requires Faithful(sp.codec) && Agrees(sp, st.items, st.Overlay()) && SafeStep(sp, st, e) && StepsTo(sp, st, e, st')
    ensures Agrees(sp, st'.items, st'.Overlay())
  {
    ItemsAgree(sp, st, e);
    OverlayAfter(sp, st, e);
  }

  /** In a safe run every cached value is the committed future's, so after the commit it is the store's. */
  lemma {:induction false} SafeRunAgrees<K(!new), V(!new)>(sp: Space<K, V>, st: State<K, V>, es: seq<Event<K, V>>)
    requires Faithful(sp.codec) && Agrees(sp, st.items, st.Overlay()) && SafeRun(sp, st, es)
    ensures var end := Run(sp, st, es); Agrees(sp, end.items, end.Overlay())
  {
    if es != [] {
      var before := Run(sp, st, es[..|es| - 1]);
      SafeRunAgrees(sp, st, es[..|es| - 1]);
      StepAgrees(sp, before, es[|es| - 1], Step(sp, before, es[|es| - 1]));
    }
  }

  // ---- evictions as events ----

  predicate OnlyEvicts<K, V>(es: seq<Event<K, V>>)
  {
    forall i :: 0 <= i < |es| ==> es[i].Evicts?
  }

  lemma RunSnoc<K, V>(sp: Space<K, V>, st: State<K, V>, es: seq<Event<K, V>>, e: Event<K, V>)
    ensures Run(sp, st, es + [e]) == Step(sp, Run(sp, st, es), e)
  {
    assert (es + [e])[..|es|] == es;
  }

  /** The state without the cached items of the keys. */
  ghost function Minus<K, V>(st: State<K, V>, keys: set<K>): State<K, V>
  {
    st.(items := st.items - keys)
  }

  lemma EvictOne<K, V>(sp: Space<K, V>, st: State<K, V>, es: seq<Event<K, V>>, k: K)
    ensures Run(sp, st, es + [Evicts(k)]) == Minus(Run(sp, st, es), {k})
  {
    RunSnoc(sp, st, es, Evicts(k));
  }

  lemma MinusOneMore<K, V>(st: State<K, V>, keys: set<K>, k: K)
    requires k in keys
    ensures Minus(Minus(st, keys - {k}), {k}) == Minus(st, keys)
  {
    assert st.items - (keys - {k}) - {k} == st.items - keys;
  }

  lemma MinusNothing<K, V>(st: State<K, V>)
    ensures Minus(st, {}) == st
  {
    assert st.items - {} == st.items;
  }

  /** Any set of keys can be evicted one by one. */
  lemma {:induction false} EvictionsRemove<K(!new), V>(
    sp: Space<K, V>, st: State<K, V>, es: seq<Event<K, V>>, keys: set<K>)
    returns (more: seq<Event<K, V>>)
    ensures OnlyEvicts(more) && Run(sp, st, es + more) == Minus(Run(sp, st, es), keys)
  {
    if keys == {} {
      more := [];
      assert es + more == es;
      MinusNothing(Run(sp, st, es));
    } else {
      var k :| k in keys;
      var rest := EvictionsRemove(sp, st, es, keys - {k});
      EvictOne(sp, st, es + rest, k);
      MinusOneMore(Run(sp, st, es), keys, k);
      more := rest + [Evicts(k)];
      assert es + more == es + rest + [Evicts(k)];
    }
  }

  /** What a step reaches up to evictions, a run of the event and evictions reaches exactly. */
  lemma StepsToIsRun<K(!new), V>(
    sp: Space<K, V>, st: State<K, V>, es: seq<Event<K, V>>, e: Event<K, V>, st': State<K, V>)
    returns (more: seq<Event<K, V>>)
    requires StepsTo(sp, Run(sp, st, es), e, st')
    ensures OnlyEvicts(more) && Run(sp, st, es + [e] + more) == st'
  {
    RunSnoc(sp, st, es, e);
    var next := Run(sp, st, es + [e]);
    more := EvictionsRemove(sp, st, es + [e], next.items.Keys - st'.items.Keys);
    assert next.items - (next.items.Keys - st'.items.Keys) == st'.items;
  }

  // ---- direct writes ----

  ghost predicate AllDirect<K, V>(es: seq<Event<K, V>>)
  {
    forall e :: e in es && e.HasWriter() ==> e.writer == Direct
  }

  /** The store under the same writes and deletes, without any cache. */
  function PlainRun<K, V>(sp: Space<K, V>, s: Store, es: seq<Event<K, V>>): Store
  {
    if es == [] then s else StoreAfter(sp, PlainRun(sp, s, es[..|es| - 1]), es[|es| - 1])
  }

  lemma {:induction false} DirectRunIsSafe<K, V>(sp: Space<K, V>, st: State<K, V>, es: seq<Event<K, V>>)
    requires st.batch == [] && AllDirect(es)
    ensures SafeRun(sp, st, es)
    ensures Run(sp, st, es).batch == [] && Run(sp, st, es).store == PlainRun(sp, st.store, es)
  {
    if es != [] {
      assert es[|es| - 1] in es;
      DirectRunIsSafe(sp, st, es[..|es| - 1]);
      OpsAre(sp, PlainRun(sp, st.store, es[..|es| - 1]), es[|es| - 1]);
    }
  }

  /** With direct writes the cache cannot be noticed: every read returns what a plain store would. */
  lemma {:induction false} DirectRunIsTransparent<K(!new), V(!new)>(
    sp: Space<K, V>, st: State<K, V>, es: seq<Event<K, V>>, k: K)
    requires Faithful(sp.codec) && st.batch == [] && Agrees(sp, st.items, st.store) && AllDirect(es)
    ensures Observe(sp, Run(sp, st, es), k) == sp.Lookup(PlainRun(sp, st.store, es), k)
  {
    DirectRunIsSafe(sp, st, es);
    SafeRunAgrees(sp, st, es);
  }

  /** The events a client asks for: all but the evictions. */
  function CallsOf<K, V>(es: seq<Event<K, V>>): seq<Event<K, V>>
  {
    if es == [] then []
    else CallsOf(es[..|es| - 1]) + if es[|es| - 1].Evicts? then [] else [es[|es| - 1]]
  }

  lemma {:induction false} CallsConcat<K, V>(a: seq<Event<K, V>>, b: seq<Event<K, V>>)
    ensures CallsOf(a + b) == CallsOf(a) + CallsOf(b)
  {
    if b == [] {
      assert a + b == a;
    } else {
      CallsConcat(a, b[..|b| - 1]);
      assert (a + b)[..|a + b| - 1] == a + b[..|b| - 1];
    }
  }

  lemma {:induction false} EvictsAreNoCalls<K, V>(es: seq<Event<K, V>>)
    requires OnlyEvicts(es)
    ensures CallsOf(es) == []
  {
    if es != [] { EvictsAreNoCalls(es[..|es| - 1]); }
  }

  /** After one more call and some evictions, the calls are one more. */
  lemma CallsAfter<K, V>(es: seq<Event<K, V>>, e: Event<K, V>, more: seq<Event<K, V>>)
    requires !e.Evicts? && OnlyEvicts(more)
    ensures CallsOf(es + [e] + more) == CallsOf(es) + [e]
  {
    CallsConcat(es + [e], more);
    CallsConcat(es, [e]);
    EvictsAreNoCalls(more);
    assert [e][..0] == [];
  }

  lemma PlainSnoc<K, V>(sp: Space<K, V>, s: Store, es: seq<Event<K, V>>, e: Event<K, V>)
    ensures PlainRun(sp, s, es + [e]) == StoreAfter(sp, PlainRun(sp, s, es), e)
  {
    assert (es + [e])[..|es|] == es;
  }

  /** Evictions do not show in the plain store. */
  lemma {:induction false} PlainRunOfCalls<K, V>(sp: Space<K, V>, s: Store, es: seq<Event<K, V>>)
    ensures PlainRun(sp, s, es) == PlainRun(sp, s, CallsOf(es))
  {
    if es != [] {
      var init, last := es[..|es| - 1], es[|es| - 1];
      PlainRunOfCalls(sp, s, init);
      if last.Evicts? {
        assert CallsOf(es) == CallsOf(init);
      } else {
        PlainSnoc(sp, s, CallsOf(init), last);
      }
    }
  }

  lemma {:induction false} CallsMembers<K, V>(es: seq<Event<K, V>>, e: Event<K, V>)
    requires e in es && !e.Evicts?
    ensures e in CallsOf(es)
  {
    var init, last := es[..|es| - 1], es[|es| - 1];
    if e != last { CallsMembers(init, e); }
  }

  lemma DirectCalls<K, V>(es: seq<Event<K, V>>)
    requires AllDirect(CallsOf(es))
    ensures AllDirect(es)
  {
    forall e | e in es && e.HasWriter() ensures e.writer == Direct { CallsMembers(es, e); }
  }

  /** A staged delete, a read that misses, and a commit leave a value in the cache that is gone from the store. */
  lemma StaleAfterCommit<K(!new), V(!new)>(sp: Space<K, V>, k: K, v: V)
    requires Faithful(sp.codec)
    ensures var start := State(map[], map[sp.PathOf(k) := sp.codec.encode(v)], []);
            var end := Run(sp, start, [Deletes(Batch, k), Reads(k), Commits]);
            && Observe(sp, end, k) == Found(v) && sp.Lookup(end.store, k) == KeyNotFound
  {
    var path := sp.PathOf(k);
    var s := map[path := sp.codec.encode(v)];
    RunThree(sp, State(map[], s, []), Deletes(Batch, k), Reads(k), Commits);
    StageDelete(sp, s, k);
    MissedRead(sp, s, k, v);
    OneOp(s, Op.Delete(path));
  }

  lemma StageDelete<K, V>(sp: Space<K, V>, s: Store, k: K)
    ensures Step(sp, State(map[], s, []), Deletes(Batch, k)) == State(map[], s, [Op.Delete(sp.PathOf(k))])
  {
    var none: map<K, V> := map[];
    assert none - {k} == none;
  }

  lemma MissedRead<K(!new), V(!new)>(sp: Space<K, V>, s: Store, k: K, v: V)
    requires Faithful(sp.codec) && sp.PathOf(k) in s && s[sp.PathOf(k)] == sp.codec.encode(v)
    ensures var batch := [Op.Delete(sp.PathOf(k))];
            Step(sp, State(map[], s, batch), Reads(k)) == State(map[k := v], s, batch)
  {
  }

  lemma RunThree<K, V>(sp: Space<K, V>, st: State<K, V>, a: Event<K, V>, b: Event<K, V>, c: Event<K, V>)
    ensures Run(sp, st, [a, b, c]) == Step(sp, Step(sp, Step(sp, st, a), b), c)
  {
    assert [a, b, c][..2] == [a, b] && [a, b][..1] == [a] && [a][..0] == [];
    assert Run(sp, st, [a]) == Step(sp, st, a);
    assert Run(sp, st, [a, b]) == Step(sp, Step(sp, st, a), b);
  }
}
