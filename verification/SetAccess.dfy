/** Sets stored as keys of the database, one bucket per set, with cached buckets. */
module SetAccess {
  import opened Cache
  import opened CachedAccess
  import opened CacheRuns
  import opened Keyspace
  import opened Outcomes
  import opened TypedStore

  datatype SetSpace<!K, !D> = SetSpace(prefix: Path, keyBytes: K -> Path, encode: D -> Path, decode: Path -> Option<D>)
  {
    function BucketPrefix(k: K): Path
    {
      NewWithBucket(prefix, keyBytes(k), []).path
    }

    function PathOf(k: K, d: D): Path
    {
      NewWithBucket(prefix, keyBytes(k), encode(d)).path
    }
  }

  /** No key's bytes begin another's. */
  ghost predicate PrefixFree<K(!new), D>(sp: SetSpace<K, D>)
  {
    forall k, k' {:trigger sp.keyBytes(k), sp.keyBytes(k')} :: sp.keyBytes(k) <= sp.keyBytes(k') ==> k == k'
  }

  ghost predicate SetFaithful<K(!new), D(!new)>(sp: SetSpace<K, D>)
  {
    PrefixFree(sp) && forall d :: sp.decode(sp.encode(d)) == Some(d)
  }

  /** Different keys of one length, such as hashes, are prefix-free. */
  lemma FixedLengthIsPrefixFree<K(!new), D>(sp: SetSpace<K, D>, n: nat)
    requires forall k :: |sp.keyBytes(k)| == n
    requires forall k, k' {:trigger sp.keyBytes(k), sp.keyBytes(k')} :: sp.keyBytes(k) == sp.keyBytes(k') ==> k == k'
    ensures PrefixFree(sp)
  {
    forall k, k' {:trigger sp.keyBytes(k), sp.keyBytes(k')} | sp.keyBytes(k) <= sp.keyBytes(k') ensures k == k' {
      assert sp.keyBytes(k') == sp.keyBytes(k')[..n];
    }
  }

  lemma Paths<K, D>(sp: SetSpace<K, D>, k: K, d: D)
    ensures sp.BucketPrefix(k) == sp.prefix + sp.keyBytes(k)
    ensures sp.PathOf(k, d) == sp.BucketPrefix(k) + sp.encode(d)
    ensures sp.PathOf(k, d)[|sp.BucketPrefix(k)|..] == sp.encode(d)
  {
    BucketKey(sp.prefix, sp.keyBytes(k), sp.encode(d));
    BucketIs(sp, k);
  }

  lemma BucketIs<K, D>(sp: SetSpace<K, D>, k: K)
    ensures sp.BucketPrefix(k) == sp.prefix + sp.keyBytes(k)
  {
    BucketKey(sp.prefix, sp.keyBytes(k), []);
    assert sp.prefix + sp.keyBytes(k) + [] == sp.prefix + sp.keyBytes(k);
  }

  /** A bucket lies in another exactly when its key begins the other's. */
  lemma BucketsNest<K, D>(sp: SetSpace<K, D>, k: K, k': K)
    ensures sp.BucketPrefix(k) <= sp.BucketPrefix(k') <==> sp.keyBytes(k) <= sp.keyBytes(k')
  {
    BucketIs(sp, k);
    BucketIs(sp, k');
    SharedStart(sp.prefix, sp.keyBytes(k), sp.keyBytes(k'));
  }

  lemma SharedStart(p: Path, a: Path, b: Path)
    ensures p + a <= p + b <==> a <= b
  {
    if p + a <= p + b {
      assert (p + a)[|p|..] == a && (p + b)[|p|..|p + a|] == b[..|a|];
    }
    if a <= b {
      assert p + b == p + a + b[|a|..];
    }
  }

  /** With prefix-free keys a path belongs to one bucket. */
  lemma OneBucket<K(!new), D>(sp: SetSpace<K, D>, k: K, k': K, path: Path)
    requires PrefixFree(sp) && sp.BucketPrefix(k) <= path && sp.BucketPrefix(k') <= path
    ensures k == k'
  {
    CommonExtension(sp.BucketPrefix(k), sp.BucketPrefix(k'), path);
    BucketsNest(sp, k, k');
    BucketsNest(sp, k', k);
  }

  lemma PathsDiffer<K(!new), D(!new)>(sp: SetSpace<K, D>, k: K, d: D, k': K, d': D)
    requires SetFaithful(sp) && sp.PathOf(k, d) == sp.PathOf(k', d')
    ensures k == k' && d == d'
  {
    Paths(sp, k, d);
    Paths(sp, k', d');
    OneBucket(sp, k, k', sp.PathOf(k, d));
    assert sp.decode(sp.encode(d)) == Some(d) && sp.decode(sp.encode(d')) == Some(d');
  }

  // ---- buckets ----

  /** A path of bucket k decodes, and is the one path of what it decodes to. */
  ghost predicate Proper<K, D>(sp: SetSpace<K, D>, k: K, path: Path)
    requires sp.BucketPrefix(k) <= path
  {
    var suffix := path[|sp.BucketPrefix(k)|..];
    sp.decode(suffix).Some? && sp.encode(sp.decode(suffix).value) == suffix
  }

  ghost predicate WellFormed<K(!new), D>(sp: SetSpace<K, D>, s: Store)
  {
    forall path, k {:trigger Proper(sp, k, path)} :: path in s && sp.BucketPrefix(k) <= path ==> Proper(sp, k, path)
  }

  function DecodedSuffix<K, D>(sp: SetSpace<K, D>, k: K, path: Path): Option<D>
  {
    if sp.BucketPrefix(k) <= path then sp.decode(path[|sp.BucketPrefix(k)|..]) else None
  }

  /** Everything in the bucket of k. */
  function Members<K, D>(sp: SetSpace<K, D>, s: Store, k: K): set<D>
  {
    set path | path in s && DecodedSuffix(sp, k, path).Some? :: DecodedSuffix(sp, k, path).value
  }

  lemma IsMember<K(!new), D(!new)>(sp: SetSpace<K, D>, s: Store, k: K, d: D)
    requires SetFaithful(sp) && WellFormed(sp, s)
    ensures d in Members(sp, s, k) <==> sp.PathOf(k, d) in s
  {
    Paths(sp, k, d);
    if sp.PathOf(k, d) in s {
      assert sp.decode(sp.encode(d)) == Some(d);
      assert DecodedSuffix(sp, k, sp.PathOf(k, d)) == Some(d);
    }
    if d in Members(sp, s, k) {
      var path :| path in s && DecodedSuffix(sp, k, path) == Some(d);
      assert Proper(sp, k, path);
      assert path == sp.BucketPrefix(k) + path[|sp.BucketPrefix(k)|..];
    }
  }

  lemma PutIsProper<K(!new), D(!new)>(sp: SetSpace<K, D>, s: Store, k: K, d: D)
    requires SetFaithful(sp) && WellFormed(sp, s)
    ensures WellFormed(sp, s[sp.PathOf(k, d) := []])
  {
    var path := sp.PathOf(k, d);
    Paths(sp, k, d);
    forall k' | sp.BucketPrefix(k') <= path ensures Proper(sp, k', path) {
      OneBucket(sp, k, k', path);
      assert sp.decode(sp.encode(d)) == Some(d);
    }
  }

  lemma FewerIsProper<K(!new), D(!new)>(sp: SetSpace<K, D>, s: Store, s': Store)
    requires WellFormed(sp, s) && s'.Keys <= s.Keys
    ensures WellFormed(sp, s')
  {
  }

  lemma AfterPut<K(!new), D(!new)>(sp: SetSpace<K, D>, s: Store, k: K, d: D)
    requires SetFaithful(sp) && WellFormed(sp, s)
    ensures var s' := s[sp.PathOf(k, d) := []];
            WellFormed(sp, s') && forall k' :: Members(sp, s', k') == Members(sp, s, k') + if k' == k then {d} else {}
  {
    var s' := s[sp.PathOf(k, d) := []];
    PutIsProper(sp, s, k, d);
    forall k' ensures Members(sp, s', k') == Members(sp, s, k') + if k' == k then {d} else {} {
      forall x ensures x in Members(sp, s', k') <==> x in Members(sp, s, k') || (k' == k && x == d) {
        IsMember(sp, s, k', x);
        IsMember(sp, s', k', x);
        if sp.PathOf(k, d) == sp.PathOf(k', x) { PathsDiffer(sp, k, d, k', x); }
      }
    }
  }

  lemma AfterDelete<K(!new), D(!new)>(sp: SetSpace<K, D>, s: Store, k: K, d: D)
    requires SetFaithful(sp) && WellFormed(sp, s)
    ensures var s' := s - {sp.PathOf(k, d)};
            WellFormed(sp, s') && forall k' :: Members(sp, s', k') == Members(sp, s, k') - if k' == k then {d} else {}
  {
    var s' := s - {sp.PathOf(k, d)};
    FewerIsProper(sp, s, s');
    forall k' ensures Members(sp, s', k') == Members(sp, s, k') - if k' == k then {d} else {} {
      forall x ensures x in Members(sp, s', k') <==> x in Members(sp, s, k') && !(k' == k && x == d) {
        IsMember(sp, s, k', x);
        IsMember(sp, s', k', x);
        if sp.PathOf(k, d) == sp.PathOf(k', x) { PathsDiffer(sp, k, d, k', x); }
      }
    }
  }

  /** Dropping the prefix of a bucket empties that bucket and no other. */
  lemma AfterDrop<K(!new), D(!new)>(sp: SetSpace<K, D>, s: Store, k: K)
    requires SetFaithful(sp) && WellFormed(sp, s)
    ensures var s' := DropPrefix(s, sp.BucketPrefix(k));
            WellFormed(sp, s') && forall k' :: Members(sp, s', k') == if k' == k then {} else Members(sp, s, k')
  {
    var s' := DropPrefix(s, sp.BucketPrefix(k));
    FewerIsProper(sp, s, s');
    forall k' ensures Members(sp, s', k') == if k' == k then {} else Members(sp, s, k') {
      forall x ensures x in Members(sp, s', k') <==> k' != k && x in Members(sp, s, k') {
        IsMember(sp, s, k', x);
        IsMember(sp, s', k', x);
        Paths(sp, k', x);
        if sp.BucketPrefix(k) <= sp.PathOf(k', x) { OneBucket(sp, k, k', sp.PathOf(k', x)); }
      }
    }
  }

  // ---- cached access ----

  ghost predicate SetsAgree<K(!new), D>(sp: SetSpace<K, D>, items: map<K, set<D>>, s: Store)
  {
    forall k :: k in items ==> items[k] == Members(sp, s, k)
  }

  /** Changing one cached set as its bucket changes keeps the cache in agreement. */
  lemma SetsAgreeAfter<K(!new), D>(
    sp: SetSpace<K, D>, items: map<K, set<D>>, s: Store, items': map<K, set<D>>, s': Store, k: K, changed: set<D>)
    requires SetsAgree(sp, items, s)
    requires if k in items then Within(items', items[k := changed]) else items' == items
    requires Members(sp, s', k) == changed && forall k' :: k' != k ==> Members(sp, s', k') == Members(sp, s, k')
    ensures SetsAgree(sp, items', s')
  {
  }

  lemma PutAgrees<K(!new), D(!new)>(
    sp: SetSpace<K, D>, items: map<K, set<D>>, s: Store, items': map<K, set<D>>, k: K, d: D)
    requires SetFaithful(sp) && WellFormed(sp, s) && SetsAgree(sp, items, s)
    requires if k in items then Within(items', items[k := items[k] + {d}]) else items' == items
    ensures var next := s[sp.PathOf(k, d) := []];
            && WellFormed(sp, next) && SetsAgree(sp, items', next)
            && forall k' :: Members(sp, next, k') == Members(sp, s, k') + if k' == k then {d} else {}
  {
    AfterPut(sp, s, k, d);
    SetsAgreeAfter(sp, items, s, items', s[sp.PathOf(k, d) := []], k, Members(sp, s, k) + {d});
  }

  lemma DeleteAgrees<K(!new), D(!new)>(
    sp: SetSpace<K, D>, items: map<K, set<D>>, s: Store, items': map<K, set<D>>, k: K, d: D)
    requires SetFaithful(sp) && WellFormed(sp, s) && SetsAgree(sp, items, s)
    requires if k in items then Within(items', items[k := items[k] - {d}]) else items' == items
    ensures var next := s - {sp.PathOf(k, d)};
            && WellFormed(sp, next) && SetsAgree(sp, items', next)
            && forall k' :: Members(sp, next, k') == Members(sp, s, k') - if k' == k then {d} else {}
  {
    AfterDelete(sp, s, k, d);
    SetsAgreeAfter(sp, items, s, items', s - {sp.PathOf(k, d)}, k, Members(sp, s, k) - {d});
  }

  /** A set read on a miss agrees with the committed future exactly when it is not kept or is the bucket there. */
  lemma SetsAgreeAfterMiss<K(!new), D>(
    sp: SetSpace<K, D>, items: map<K, set<D>>, s: Store, items': map<K, set<D>>, k: K, read: set<D>)
    requires SetsAgree(sp, items, s) && k !in items && Within(items', items[k := read])
    ensures SetsAgree(sp, items', s) <==> k !in items' || read == Members(sp, s, k)
  {
  }

  class CachedDbSetAccess<K(==, !new), D(==, !new)> {
    const space: SetSpace<K, D>
    const db: Database
    const cache: Cache<K, set<D>>

    ghost predicate Valid()
      reads db, cache
    {
      SetFaithful(space) && cache.Valid() && WellFormed(space, db.store)
    }

    /** Every cached set is the bucket as it will be once the pending batch is committed. */
    ghost predicate Coherent()
      reads db, cache
    {
      WellFormed(space, db.Overlay()) && SetsAgree(space, cache.items, db.Overlay())
    }

    constructor (database: Database, policy: CachePolicy, size: set<D> -> nat, sp: SetSpace<K, D>)
      requires SetFaithful(sp) && WellFormed(sp, database.store) && database.batch == []
      ensures Valid() && Coherent() && fresh(cache) && db == database && space == sp
    {
      space, db := sp, database;
      cache := new Cache<K, set<D>>(policy, size);
    }

    method Read(key: K) returns (r: set<D>)
      requires Valid()
      modifies cache
      ensures Valid()
      ensures r == if key in old(cache.items) then old(cache.items)[key] else Members(space, db.store, key)
      ensures if key in old(cache.items) then cache.items == old(cache.items)
              else InsertsTo(cache.policy, cache.size, old(cache.items), key, r, cache.items)
      ensures Within(cache.items, old(cache.items)[key := r])
      ensures old(Coherent()) ==>
        (Coherent() <==>
          || key in old(cache.items) || key !in cache.items
          || Members(space, db.store, key) == Members(space, db.Overlay(), key))
      ensures old(Coherent()) && db.batch == [] ==> Coherent() && r == Members(space, db.store, key)
    {
      if key in cache.items {
        return cache.items[key];
      }
      ghost var items := cache.items;
      r := Members(space, db.store, key);
      cache.Insert(key, r);
      if SetsAgree(space, items, db.Overlay()) {
        SetsAgreeAfterMiss(space, items, db.Overlay(), cache.items, key, r);
      }
    }

    /** Adds to the stored bucket, and to the cached set if there is one. */
    method Write(writer: Writer, key: K, data: D)
      requires Valid()
      modifies cache, db
      ensures Valid()
      ensures var was := old(cache.items); key in was ==>
        ChangesTo(cache.policy, cache.size, was, key, was[key] + {data}, cache.items)
      ensures key !in old(cache.items) ==> cache.items == old(cache.items)
      ensures old(Coherent()) && (writer == Batch || old(db.batch) == []) ==>
        && Coherent()
        && forall k :: Members(space, db.Overlay(), k) ==
             Members(space, old(db.Overlay()), k) + if k == key then {data} else {}
      ensures writer == Direct ==> db.batch == old(db.batch)
      ensures writer == Batch ==> db.store == old(db.store)
    {
      ghost var items, overlay := cache.items, db.Overlay();
      AfterPut(space, db.store, key, data);
      cache.UpdateIfEntryExists(key, members => members + {data});
      if WellFormed(space, overlay) && SetsAgree(space, items, overlay) {
        PutAgrees(space, items, overlay, cache.items, key, data);
      }
      db.Send(writer, Put(space.PathOf(key, data), []));
    }

    method Delete(writer: Writer, key: K, data: D)
      requires Valid()
      modifies cache, db
      ensures Valid()
      ensures var was := old(cache.items); key in was ==>
        ChangesTo(cache.policy, cache.size, was, key, was[key] - {data}, cache.items)
      ensures key !in old(cache.items) ==> cache.items == old(cache.items)
      ensures old(Coherent()) && (writer == Batch || old(db.batch) == []) ==>
        && Coherent()
        && forall k :: Members(space, db.Overlay(), k) ==
             Members(space, old(db.Overlay()), k) - if k == key then {data} else {}
      ensures writer == Direct ==> db.batch == old(db.batch)
      ensures writer == Batch ==> db.store == old(db.store)
    {
      ghost var items, overlay := cache.items, db.Overlay();
      AfterDelete(space, db.store, key, data);
      cache.UpdateIfEntryExists(key, members => members - {data});
      db.Send(writer, Op.Delete(space.PathOf(key, data)));
      if WellFormed(space, overlay) && SetsAgree(space, items, overlay) {
        DeleteAgrees(space, items, overlay, cache.items, key, data);
      }
    }

    /** Empties one bucket; a bucket whose prefix has no successor panics. */
    method DeleteBucket(writer: Writer, key: K) returns (outcome: Outcome<()>)
      requires Valid()
      modifies cache, db
      ensures Valid() && cache.items == old(cache.items) - {key}
      ensures old(Coherent()) && (writer == Batch || old(db.batch) == []) ==> Coherent()
      ensures outcome.Panicked? <==> AllMax(space.BucketPrefix(key))
      ensures outcome.Returned? && old(Coherent()) && (writer == Batch || old(db.batch) == []) ==>
        forall k :: Members(space, db.Overlay(), k) == if k == key then {} else Members(space, old(db.Overlay()), k)
      ensures outcome.Panicked? ==> db.store == old(db.store) && db.batch == old(db.batch)
      ensures writer == Direct ==> db.batch == old(db.batch)
      ensures writer == Batch ==> db.store == old(db.store)
    {
      var _ := cache.Remove(key);
      var prefix := space.BucketPrefix(key);
      NextPrefixExists(prefix);
      match NextPrefix(prefix)
      case None =>
        outcome := Panicked;
      case Some(next) =>
        DeletesPrefix(db.store, prefix);
        DeletesPrefix(db.Overlay(), prefix);
        if WellFormed(space, db.Overlay()) { AfterDrop(space, db.Overlay(), key); }
        db.Send(writer, DeleteRange(prefix, next));
        outcome := Returned(());
    }
  }

  // ---- when buckets are isolated ----

  predicate InBucket<K, D>(sp: SetSpace<K, D>, k: K, path: Path)
  {
    sp.BucketPrefix(k) <= path
  }

  /** No path lies in two buckets. */
  ghost predicate PathsIsolated<K(!new), D>(sp: SetSpace<K, D>)
  {
    forall k, k', path :: InBucket(sp, k, path) && InBucket(sp, k', path) ==> k == k'
  }

  /** Emptying one bucket leaves every other as it was. */
  ghost predicate DropsIsolated<K(!new), D>(sp: SetSpace<K, D>)
  {
    forall s, k, k' {:trigger Members(sp, DropPrefix(s, sp.BucketPrefix(k)), k')} ::
      k != k' ==> Members(sp, DropPrefix(s, sp.BucketPrefix(k)), k') == Members(sp, s, k')
  }

  /** A store of one member d of k', where the bytes of k begin those of k': emptying k loses d. */
  lemma NestedBucketIsLost<K, D>(sp: SetSpace<K, D>, k: K, k': K, d: D)
    requires sp.keyBytes(k) <= sp.keyBytes(k') && sp.decode(sp.encode(d)) == Some(d)
    ensures var s := map[sp.PathOf(k', d) := []];
            Members(sp, s, k') == {d} && Members(sp, DropPrefix(s, sp.BucketPrefix(k)), k') == {}
  {
    var path := sp.PathOf(k', d);
    Paths(sp, k', d);
    BucketsNest(sp, k, k');
    assert DecodedSuffix(sp, k', path) == Some(d);
    assert sp.BucketPrefix(k) <= path;
    assert DropPrefix(map[path := []], sp.BucketPrefix(k)) == map[];
  }

  lemma DropKeepsOthers<K(!new), D>(sp: SetSpace<K, D>, s: Store, k: K, k': K)
    requires PrefixFree(sp) && k != k'
    ensures Members(sp, DropPrefix(s, sp.BucketPrefix(k)), k') == Members(sp, s, k')
  {
    var t := DropPrefix(s, sp.BucketPrefix(k));
    forall path | path in s && DecodedSuffix(sp, k', path).Some? ensures path in t {
      if sp.BucketPrefix(k) <= path { OneBucket(sp, k, k', path); }
    }
  }

  /** Buckets are isolated exactly when keys are prefix-free. */
  lemma IsolationIff<K(!new), D>(sp: SetSpace<K, D>, d: D)
    requires sp.decode(sp.encode(d)) == Some(d)
    ensures PathsIsolated(sp) <==> PrefixFree(sp)
    ensures DropsIsolated(sp) <==> PrefixFree(sp)
  {
    if PrefixFree(sp) {
      forall k, k', path | InBucket(sp, k, path) && InBucket(sp, k', path) ensures k == k' {
        OneBucket(sp, k, k', path);
      }
      forall s, k, k' | k != k' ensures Members(sp, DropPrefix(s, sp.BucketPrefix(k)), k') == Members(sp, s, k') {
        DropKeepsOthers(sp, s, k, k');
      }
    } else {
      var k, k' :| sp.keyBytes(k) <= sp.keyBytes(k') && k != k';
      BucketsNest(sp, k, k');
      assert InBucket(sp, k, sp.BucketPrefix(k')) && InBucket(sp, k', sp.BucketPrefix(k'));
      NestedBucketIsLost(sp, k, k', d);
    }
  }

  /** Keys of unequal length: emptying the bucket of [1] loses the member of the bucket of [1, 2]. */
  lemma UnequalKeysCollide<D(!new)>(encode: D -> Path, decode: Path -> Option<D>, d: D)
    requires decode(encode(d)) == Some(d)
    ensures var sp := SetSpace([7], (k: bool) => if k then [1] else [1, 2], encode, decode);
            var s := map[sp.PathOf(false, d) := []];
            Members(sp, s, false) == {d} && Members(sp, DropPrefix(s, sp.BucketPrefix(true)), false) == {}
  {
    var sp := SetSpace([7], (k: bool) => if k then [1] else [1, 2], encode, decode);
    assert sp.keyBytes(true) <= sp.keyBytes(false);
    NestedBucketIsLost(sp, true, false, d);
  }
}
