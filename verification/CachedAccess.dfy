/** Typed access to one prefix of the database, through a cache. */
module CachedAccess {
  import opened Cache
  import opened CacheSizes
  import opened CacheRuns
  import opened Keyspace
  import opened Outcomes
  import opened TypedStore

  /** The database: what is stored, and the batch that is being filled. */
  class Database {
    var store: Store
    var batch: seq<Op>

    constructor ()
      ensures store == map[] && batch == []
    {
      store, batch := map[], [];
    }

    /** The store as it will be once the batch is committed. */
    ghost function Overlay(): Store
      reads this
    {
      ApplyBatch(store, batch)
    }

    method Send(writer: Writer, op: Op)
      modifies this
      ensures writer == Direct ==> store == Apply(old(store), op) && batch == old(batch)
      ensures writer == Batch ==> store == old(store) && batch == old(batch) + [op]
      ensures writer == Batch || old(batch) == [] ==> Overlay() == Apply(old(Overlay()), op)
    {
      if writer == Direct {
        store := Apply(store, op);
      } else {
        batch := batch + [op];
      }
    }

    /** Hands the operations to the writer one after the other. */
    method SendAll(writer: Writer, ops: seq<Op>)
      modifies this
      ensures writer == Direct ==> store == ApplyBatch(old(store), ops) && batch == old(batch)
      ensures writer == Batch ==> store == old(store) && batch == old(batch) + ops
    {
      for i := 0 to |ops|
        invariant writer == Direct ==> store == ApplyBatch(old(store), ops[..i]) && batch == old(batch)
        invariant writer == Batch ==> store == old(store) && batch == old(batch) + ops[..i]
      {
        assert ops[..i + 1] == ops[..i] + [ops[i]] && ops[..i + 1][..i] == ops[..i];
        Send(writer, ops[i]);
      }
      assert ops[..|ops|] == ops;
    }

    method Commit()
      modifies this
      ensures store == old(Overlay()) && batch == [] && Overlay() == old(Overlay())
    {
      for i := 0 to |batch|
        invariant batch == old(batch) && store == ApplyBatch(old(store), batch[..i])
      {
        assert batch[..i + 1][..i] == batch[..i];
        store := Apply(store, batch[i]);
      }
      assert batch[..|batch|] == batch;
      batch := [];
    }
  }

  /**
   * Every method takes the access from its state to one that the method's event reaches up to evictions;
   * what that means for coherence and for the committed future is added in terms of the store.
   */
  class CachedDbAccess<K(==, !new), V(!new)> {
    const space: Space<K, V>
    const db: Database
    const cache: Cache<K, V>

    ghost predicate Valid()
      reads cache
    {
      Faithful(space.codec) && cache.Valid()
    }

    ghost function Now(): State<K, V>
      reads db, cache
    {
      State(cache.items, db.store, db.batch)
    }

    /** Every cached item is what the database holds once the pending batch is committed. */
    ghost predicate Coherent()
      reads db, cache
    {
      Agrees(space, cache.items, db.Overlay())
    }

    constructor (database: Database, policy: CachePolicy, size: V -> nat, sp: Space<K, V>)
      requires Faithful(sp.codec)
      ensures Valid() && Coherent() && fresh(cache) && db == database && space == sp
      ensures cache.items == map[] && cache.policy == Inner(policy) && cache.size == size
    {
      space, db := sp, database;
      cache := new Cache<K, V>(policy, size);
    }

    method Has(key: K) returns (found: bool)
      requires Valid()
      ensures found == (key in cache.items || space.PathOf(key) in db.store)
      ensures Coherent() && db.batch == [] ==> found == (space.PathOf(key) in db.store)
    {
      found := key in cache.items || space.PathOf(key) in db.store;
    }

    /**
     * A miss brings the stored value into the cache. The cache keeps agreeing with the committed
     * future exactly when the key was cached, was not kept, or is left alone by the pending batch.
     */
    method Read(key: K) returns (r: ReadResult<V>)
      requires Valid()
      modifies cache
      ensures Valid()
      ensures r == Observe(space, old(Now()), key) && StepsTo(space, old(Now()), Reads(key), Now())
      ensures r == if key in old(cache.items) then Found(old(cache.items)[key]) else space.Lookup(db.store, key)
      ensures if key in old(cache.items) || !r.Found? then cache.items == old(cache.items)
              else InsertsTo(cache.policy, cache.size, old(cache.items), key, r.value, cache.items)
      ensures r.Found? && key !in old(cache.items) && !cache.policy.tracked && cache.policy.maxSize > 0 ==> key in cache.items
      ensures old(Coherent()) ==>
        (Coherent() <==>
          || key in old(cache.items) || key !in cache.items
          || space.Lookup(db.store, key) == space.Lookup(db.Overlay(), key))
      ensures old(Coherent()) && db.batch == [] ==> Coherent() && r == space.Lookup(db.store, key)
    {
      if key in cache.items {
        return Found(cache.items[key]);
      }
      r := space.Lookup(db.store, key);
      if r.Found? {
        ghost var items := cache.items;
        cache.Insert(key, r.value);
        if Agrees(space, items, db.Overlay()) {
          AgreesAfterMiss(space, items, db.Overlay(), cache.items, key, r.value);
        }
      }
    }

    /** The value goes into the cache, where the next read finds it even while it is only staged, and to the writer. */
    method Write(writer: Writer, key: K, data: V)
      requires Valid()
      modifies cache, db
      ensures Valid() && StepsTo(space, old(Now()), Writes(writer, key, data), Now())
      ensures writer == Direct ==>
        db.store == old(db.store)[space.PathOf(key) := space.codec.encode(data)] && db.batch == old(db.batch)
      ensures writer == Batch ==>
        db.store == old(db.store) && db.batch == old(db.batch) + [Put(space.PathOf(key), space.codec.encode(data))]
      ensures InsertsTo(cache.policy, cache.size, old(cache.items), key, data, cache.items)
      ensures cache.policy.maxSize > 0 && !cache.policy.tracked ==> key in cache.items && cache.items[key] == data
      ensures var all := old(cache.items)[key := data];
        cache.policy.maxSize > 0 && cache.policy.tracked && TotalSize(cache.size, all) <= cache.policy.maxSize ==>
          cache.items == all
      ensures key in cache.items ==> Observe(space, Now(), key) == Found(data)
      ensures writer == Batch || old(db.batch) == [] ==>
        && db.Overlay() == old(db.Overlay())[space.PathOf(key) := space.codec.encode(data)]
        && (old(Coherent()) ==> Coherent())
    {
      ghost var before := Now();
      cache.Insert(key, data);
      SendOne(db.store, Put(space.PathOf(key), space.codec.encode(data)));
      db.SendAll(writer, [Put(space.PathOf(key), space.codec.encode(data))]);
      Stepped(space, before, Writes(writer, key, data), Now());
    }

    method WriteMany(writer: Writer, pairs: seq<(K, V)>)
      requires Valid()
      modifies cache, db
      ensures Valid() && StepsTo(space, old(Now()), WritesMany(writer, pairs), Now())
      ensures InsertsAllTo(cache.policy, cache.size, old(cache.items), pairs, cache.items)
      ensures cache.policy.maxSize > 0 && RoomForAll(cache.policy, cache.size, old(cache.items), pairs) ==>
        cache.items == Updated(old(cache.items), pairs)
      ensures cache.policy.maxSize > 0 && !cache.policy.tracked && pairs != [] ==>
        Observe(space, Now(), pairs[|pairs| - 1].0) == Found(pairs[|pairs| - 1].1)
      ensures writer == Batch || old(db.batch) == [] ==>
        db.Overlay() == PutAll(space, old(db.Overlay()), pairs) && (old(Coherent()) ==> Coherent())
    {
      ghost var before := Now();
      cache.InsertMany(pairs);
      LastIsKept(cache.policy, cache.size, before.items, pairs, cache.items);
      db.SendAll(writer, PutOps(space, pairs));
      Stepped(space, before, WritesMany(writer, pairs), Now());
    }

    /** Clears the cache, so that no item in it can be out of date. */
    method WriteManyWithoutCache(writer: Writer, pairs: seq<(K, V)>)
      requires Valid()
      modifies cache, db
      ensures Valid() && Coherent() && cache.items == map[]
      ensures StepsTo(space, old(Now()), WritesUncached(writer, pairs), Now())
      ensures writer == Batch || old(db.batch) == [] ==> db.Overlay() == PutAll(space, old(db.Overlay()), pairs)
    {
      ghost var before := Now();
      db.SendAll(writer, PutOps(space, pairs));
      cache.RemoveAll();
      Stepped(space, before, WritesUncached(writer, pairs), Now());
    }

    method Delete(writer: Writer, key: K)
      requires Valid()
      modifies cache, db
      ensures Valid() && StepsTo(space, old(Now()), Deletes(writer, key), Now())
      ensures cache.items == old(cache.items) - {key}
      ensures writer == Direct ==> db.store == old(db.store) - {space.PathOf(key)} && db.batch == old(db.batch)
      ensures writer == Batch ==> db.store == old(db.store) && db.batch == old(db.batch) + [Op.Delete(space.PathOf(key))]
      ensures writer == Batch || old(db.batch) == [] ==>
        db.Overlay() == old(db.Overlay()) - {space.PathOf(key)} && (old(Coherent()) ==> Coherent())
    {
      ghost var before := Now();
      var _ := cache.Remove(key);
      SendOne(db.store, Op.Delete(space.PathOf(key)));
      db.SendAll(writer, [Op.Delete(space.PathOf(key))]);
      Stepped(space, before, Deletes(writer, key), Now());
    }

    method DeleteMany(writer: Writer, keys: seq<K>)
      requires Valid()
      modifies cache, db
      ensures Valid() && StepsTo(space, old(Now()), DeletesMany(writer, keys), Now())
      ensures cache.items == map k | k in old(cache.items) && k !in keys :: old(cache.items)[k]
      ensures writer == Batch || old(db.batch) == [] ==>
        db.Overlay() == DeleteAllOf(space, old(db.Overlay()), keys) && (old(Coherent()) ==> Coherent())
    {
      ghost var before := Now();
      cache.RemoveMany(keys);
      WithoutIs(before.items, keys);
      db.SendAll(writer, DeleteOps(space, keys));
      Stepped(space, before, DeletesMany(writer, keys), Now());
    }

    /** Drops everything under the prefix and nothing else; a prefix without a successor panics. */
    method DeleteAll(writer: Writer) returns (outcome: Outcome<()>)
      requires Valid()
      modifies cache, db
      ensures Valid() && Coherent() && cache.items == map[]
      ensures StepsTo(space, old(Now()), DeletesAll(writer), Now())
      ensures outcome.Panicked? <==> AllMax(space.prefix)
      ensures outcome.Panicked? ==> db.store == old(db.store) && db.batch == old(db.batch)
      ensures outcome.Returned? && (writer == Batch || old(db.batch) == []) ==>
        db.Overlay() == DropPrefix(old(db.Overlay()), space.prefix)
    {
      ghost var before := Now();
      cache.RemoveAll();
      var prefix := PrefixOnly(space.prefix).path;
      assert prefix == space.prefix;
      NextPrefixExists(prefix);
      match NextPrefix(prefix)
      case None =>
        outcome := Panicked;
      case Some(next) =>
        db.SendAll(writer, [DeleteRange(prefix, next)]);
        outcome := Returned(());
        Stepped(space, before, DeletesAll(writer), Now());
    }
  }

  lemma SendOne(s: Store, op: Op)
    ensures ApplyBatch(s, [op]) == Apply(s, op)
  {
    assert [op][..0] == [];
  }

  /** What a step with a writer means for the committed future and for coherence. */
  lemma Stepped<K(!new), V(!new)>(sp: Space<K, V>, st: State<K, V>, e: Event<K, V>, st': State<K, V>)
    requires Faithful(sp.codec) && e.HasWriter() && StepsTo(sp, st, e, st')
    ensures e.writer == Batch || st.batch == [] ==>
      && st'.Overlay() == StoreAfter(sp, st.Overlay(), e)
      && (Agrees(sp, st.items, st.Overlay()) ==> Agrees(sp, st'.items, st'.Overlay()))
  {
    if e.writer == Batch || st.batch == [] {
      OverlayAfter(sp, st, e);
      if Agrees(sp, st.items, st.Overlay()) { StepAgrees(sp, st, e, st'); }
    }
  }

  // ---- clients ----

  /** One call of a client. */
  method Perform<K(==, !new), V(!new)>(access: CachedDbAccess<K, V>, call: Event<K, V>)
    returns (observed: Option<ReadResult<V>>)
    requires access.Valid() && !call.Evicts?
    modifies access.cache, access.db
    ensures access.Valid() && StepsTo(access.space, old(access.Now()), call, access.Now())
    ensures observed == if call.Reads? then Some(Observe(access.space, old(access.Now()), call.key)) else None
  {
    observed := None;
    match call
    case Reads(k) =>
      var r := access.Read(k);
      observed := Some(r);
    case Writes(w, k, v) => access.Write(w, k, v);
    case WritesMany(w, pairs) => access.WriteMany(w, pairs);
    case WritesUncached(w, pairs) => access.WriteManyWithoutCache(w, pairs);
    case Deletes(w, k) => access.Delete(w, k);
    case DeletesMany(w, keys) => access.DeleteMany(w, keys);
    case DeletesAll(w) => var _ := access.DeleteAll(w);
    case Commits => access.db.Commit();
  }

  /** Each read so far returned what the plain store held at that point. */
  ghost predicate ReadsArePlain<K, V>(
    sp: Space<K, V>, s: Store, calls: seq<Event<K, V>>, observed: seq<Option<ReadResult<V>>>)
    requires |observed| <= |calls|
  {
    forall i :: 0 <= i < |observed| ==> PlainAt(sp, s, calls, i, observed[i])
  }

  /** If the i-th call is a read, its answer is that of the plain store. */
  ghost predicate PlainAt<K, V>(sp: Space<K, V>, s: Store, calls: seq<Event<K, V>>, i: nat, answer: Option<ReadResult<V>>)
    requires i < |calls|
  {
    calls[i].Reads? ==> answer == Some(sp.Lookup(PlainRun(sp, s, calls[..i]), calls[i].key))
  }

  /** Coherent, nothing pending, and only direct writes to come. */
  ghost predicate Unbatched<K(!new), V>(sp: Space<K, V>, st: State<K, V>, calls: seq<Event<K, V>>)
  {
    st.batch == [] && Agrees(sp, st.items, st.store) && AllDirect(calls)
  }

  /** The first |observed| calls led from start to now, through the events es. */
  ghost predicate Followed<K(!new), V>(sp: Space<K, V>, start: State<K, V>, calls: seq<Event<K, V>>,
                                       observed: seq<Option<ReadResult<V>>>, es: seq<Event<K, V>>, now: State<K, V>)
  {
    && |observed| <= |calls| && CallsOf(es) == calls[..|observed|] && now == Run(sp, start, es)
    && (Unbatched(sp, start, calls) ==> ReadsArePlain(sp, start.store, calls, observed))
  }

  lemma ReadIsPlain<K(!new), V(!new)>(
    sp: Space<K, V>, start: State<K, V>, es: seq<Event<K, V>>, calls: seq<Event<K, V>>, k: K)
    requires Faithful(sp.codec) && Unbatched(sp, start, calls) && CallsOf(es) == calls
    ensures Observe(sp, Run(sp, start, es), k) == sp.Lookup(PlainRun(sp, start.store, calls), k)
  {
    PlainRunOfCalls(sp, start.store, es);
    DirectCalls(es);
    DirectRunIsTransparent(sp, start, es, k);
  }

  lemma FollowOne<K(!new), V(!new)>(
    sp: Space<K, V>, start: State<K, V>, calls: seq<Event<K, V>>, observed: seq<Option<ReadResult<V>>>, es: seq<Event<K, V>>,
    one: Option<ReadResult<V>>, more: seq<Event<K, V>>)
    requires Faithful(sp.codec) && Followed(sp, start, calls, observed, es, Run(sp, start, es))
    requires |observed| < |calls| && !calls[|observed|].Evicts? && OnlyEvicts(more)
    requires calls[|observed|].Reads? ==> one == Some(Observe(sp, Run(sp, start, es), calls[|observed|].key))
    ensures var es' := es + [calls[|observed|]] + more;
            Followed(sp, start, calls, observed + [one], es', Run(sp, start, es'))
  {
    var i := |observed|;
    CallsAfter(es, calls[i], more);
    assert calls[..i + 1] == calls[..i] + [calls[i]] && |observed + [one]| == i + 1;
    if Unbatched(sp, start, calls) {
      OneMoreRead(sp, start, calls, observed, es, one);
    }
  }

  lemma OneMoreRead<K(!new), V(!new)>(
    sp: Space<K, V>, start: State<K, V>, calls: seq<Event<K, V>>, observed: seq<Option<ReadResult<V>>>, es: seq<Event<K, V>>,
    one: Option<ReadResult<V>>)
    requires Faithful(sp.codec) && Unbatched(sp, start, calls)
    requires |observed| < |calls| && CallsOf(es) == calls[..|observed|] && ReadsArePlain(sp, start.store, calls, observed)
    requires calls[|observed|].Reads? ==> one == Some(Observe(sp, Run(sp, start, es), calls[|observed|].key))
    ensures ReadsArePlain(sp, start.store, calls, observed + [one])
  {
    var i := |observed|;
    if calls[i].Reads? { ReadIsPlain(sp, start, es, calls[..i], calls[i].key); }
    assert PlainAt(sp, start.store, calls, i, one);
  }

  /**
   * Any calls of a client, whatever the cache evicts: the access ends where a run of the calls with some
   * evictions ends, and if all writes were direct no read could tell that there is a cache.
   */
  method PerformAll<K(==, !new), V(!new)>(access: CachedDbAccess<K, V>, calls: seq<Event<K, V>>)
    returns (observed: seq<Option<ReadResult<V>>>, ghost es: seq<Event<K, V>>)
    requires access.Valid() && forall i :: 0 <= i < |calls| ==> !calls[i].Evicts?
    modifies access.cache, access.db
    ensures access.Valid() && |observed| == |calls|
    ensures CallsOf(es) == calls && access.Now() == Run(access.space, old(access.Now()), es)
    ensures AllDirect(calls) && old(access.Coherent()) && old(access.db.batch) == [] ==>
      && ReadsArePlain(access.space, old(access.db.store), calls, observed)
      && access.db.store == PlainRun(access.space, old(access.db.store), calls)
  {
    observed, es := [], [];
    ghost var start := access.Now();
    while |observed| < |calls|
      invariant access.Valid() && Followed(access.space, start, calls, observed, es, access.Now())
    {
      var one := Perform(access, calls[|observed|]);
      ghost var more := StepsToIsRun(access.space, start, es, calls[|observed|], access.Now());
      FollowOne(access.space, start, calls, observed, es, one, more);
      es := es + [calls[|observed|]] + more;
      observed := observed + [one];
    }
    assert calls[..|calls|] == calls;
    if Unbatched(access.space, start, calls) {
      PlainRunOfCalls(access.space, start.store, es);
      DirectCalls(es);
      DirectRunIsSafe(access.space, start, es);
    }
  }
}
