/** One typed store: keys and values of a program as paths and bytes under a prefix of the database. */
module TypedStore {
  import opened Cache
  import opened Keyspace
  import opened Outcomes

  datatype Codec<!K, !V> = Codec(keyBytes: K -> Path, encode: V -> Path, decode: Path -> Option<V>)

  ghost predicate Faithful<K(!new), V(!new)>(c: Codec<K, V>)
  {
    && (forall k, k' {:trigger c.keyBytes(k), c.keyBytes(k')} :: c.keyBytes(k) == c.keyBytes(k') ==> k == k')
    && (forall v :: c.decode(c.encode(v)) == Some(v))
  }

  datatype ReadResult<V> = Found(value: V) | KeyNotFound | Undecodable

  /** One typed store: a codec under a prefix. */
  datatype Space<!K, !V> = Space(prefix: Path, codec: Codec<K, V>)
  {
    function PathOf(k: K): Path
    {
      NewKey(prefix, codec.keyBytes(k)).path
    }

    function Lookup(s: Store, k: K): ReadResult<V>
    {
      if PathOf(k) !in s then KeyNotFound
      else match codec.decode(s[PathOf(k)]) case Some(v) => Found(v) case None => Undecodable
    }
  }

  /** Every cached item is what the store holds. */
  ghost predicate Agrees<K(!new), V>(sp: Space<K, V>, items: map<K, V>, s: Store)
  {
    forall k :: k in items ==> sp.Lookup(s, k) == Found(items[k])
  }

  lemma PathsDetermineKeys<K(!new), V(!new)>(sp: Space<K, V>, k: K, k': K)
    requires Faithful(sp.codec) && sp.PathOf(k) == sp.PathOf(k')
    ensures k == k'
  {
    assert sp.PathOf(k)[|sp.prefix|..] == sp.codec.keyBytes(k);
    assert sp.PathOf(k')[|sp.prefix|..] == sp.codec.keyBytes(k');
  }

  /** A path is the prefix followed by the key's bytes. */
  lemma PathIs<K, V>(sp: Space<K, V>, k: K)
    ensures sp.PathOf(k)[..|sp.prefix|] == sp.prefix && sp.PathOf(k)[|sp.prefix|..] == sp.codec.keyBytes(k)
  {
  }

  /** A missing path, bytes that decode and bytes that do not are three different answers. */
  lemma LookupMeans<K, V>(sp: Space<K, V>, s: Store, k: K)
    ensures sp.Lookup(s, k) == KeyNotFound <==> sp.PathOf(k) !in s
    ensures forall v :: sp.Lookup(s, k) == Found(v) <==> sp.PathOf(k) in s && sp.codec.decode(s[sp.PathOf(k)]) == Some(v)
    ensures sp.Lookup(s, k) == Undecodable <==> sp.PathOf(k) in s && sp.codec.decode(s[sp.PathOf(k)]) == None
  {
  }

  /** A write reads back, and reads of other keys do not notice it. */
  lemma LookupPut<K(!new), V(!new)>(sp: Space<K, V>, s: Store, k: K, v: V, k': K)
    requires Faithful(sp.codec)
    ensures sp.Lookup(s[sp.PathOf(k) := sp.codec.encode(v)], k') == if k' == k then Found(v) else sp.Lookup(s, k')
  {
    if sp.PathOf(k) == sp.PathOf(k') { PathsDetermineKeys(sp, k, k'); }
  }

  lemma LookupDelete<K(!new), V(!new)>(sp: Space<K, V>, s: Store, k: K, k': K)
    requires Faithful(sp.codec)
    ensures sp.Lookup(s - {sp.PathOf(k)}, k') == if k' == k then KeyNotFound else sp.Lookup(s, k')
  {
    if sp.PathOf(k) == sp.PathOf(k') { PathsDetermineKeys(sp, k, k'); }
  }

  /** The store without the paths that start with p. */
  function DropPrefix(s: Store, p: Path): Store
  {
    map k | k in s && !(p <= k) :: s[k]
  }

  /** Stores under prefixes that do not extend each other do not interfere. */
  lemma OtherPrefixUntouched<K, V, K', V'>(sp: Space<K, V>, other: Space<K', V'>, s: Store, k: K, bytes: Path, k': K')
    requires !(sp.prefix <= other.prefix) && !(other.prefix <= sp.prefix)
    ensures other.Lookup(s[sp.PathOf(k) := bytes], k') == other.Lookup(s, k')
    ensures other.Lookup(s - {sp.PathOf(k)}, k') == other.Lookup(s, k')
    ensures other.Lookup(DropPrefix(s, sp.prefix), k') == other.Lookup(s, k')
  {
    var p, q := sp.prefix, other.prefix;
    var path := other.PathOf(k');
    assert path == q + other.codec.keyBytes(k');
    if p <= path { CommonExtension(p, q, path); }
    assert p <= sp.PathOf(k);
  }

  lemma CommonExtension(p: Path, q: Path, path: Path)
    requires p <= path && q <= path
    ensures p <= q || q <= p
  {
    if |p| <= |q| { assert q[..|p|] == path[..|p|] == p; } else { assert p[..|q|] == path[..|q|] == q; }
  }

  lemma AgreesAfterPut<K(!new), V(!new)>(sp: Space<K, V>, items: map<K, V>, s: Store, items': map<K, V>, k: K, v: V)
    requires Faithful(sp.codec) && Agrees(sp, items, s) && Within(items', items[k := v])
    ensures Agrees(sp, items', s[sp.PathOf(k) := sp.codec.encode(v)])
  {
    forall k' | k' in items' ensures sp.Lookup(s[sp.PathOf(k) := sp.codec.encode(v)], k') == Found(items'[k']) {
      LookupPut(sp, s, k, v, k');
    }
  }

  lemma AgreesAfterDelete<K(!new), V(!new)>(sp: Space<K, V>, items: map<K, V>, s: Store, k: K)
    requires Faithful(sp.codec) && Agrees(sp, items, s)
    ensures Agrees(sp, items - {k}, s - {sp.PathOf(k)})
  {
    forall k' | k' in items - {k} ensures sp.Lookup(s - {sp.PathOf(k)}, k') == Found(items[k']) {
      LookupDelete(sp, s, k, k');
    }
  }

  /** Taking in a value of k keeps the cache in agreement exactly when it is not kept or is what the store holds. */
  lemma AgreesAfterMiss<K(!new), V>(sp: Space<K, V>, items: map<K, V>, s: Store, items': map<K, V>, k: K, v: V)
    requires Agrees(sp, items, s) && Within(items', items[k := v])
    ensures Agrees(sp, items', s) <==> k !in items' || sp.Lookup(s, k) == Found(v)
  {
  }

  // ---- many at once ----

  function PutOps<K, V>(sp: Space<K, V>, pairs: seq<(K, V)>): seq<Op>
  {
    seq(|pairs|, i requires 0 <= i < |pairs| => Put(sp.PathOf(pairs[i].0), sp.codec.encode(pairs[i].1)))
  }

  function DeleteOps<K, V>(sp: Space<K, V>, keys: seq<K>): seq<Op>
  {
    seq(|keys|, i requires 0 <= i < |keys| => Op.Delete(sp.PathOf(keys[i])))
  }

  /** The store after writing the pairs in order. */
  function PutAll<K, V>(sp: Space<K, V>, s: Store, pairs: seq<(K, V)>): Store
  {
    if pairs == [] then s
    else
      var last := pairs[|pairs| - 1];
      PutAll(sp, s, pairs[..|pairs| - 1])[sp.PathOf(last.0) := sp.codec.encode(last.1)]
  }

  function DeleteAllOf<K, V>(sp: Space<K, V>, s: Store, keys: seq<K>): Store
  {
    if keys == [] then s else DeleteAllOf(sp, s, keys[..|keys| - 1]) - {sp.PathOf(keys[|keys| - 1])}
  }

  lemma {:induction false} PutOpsPutAll<K, V>(sp: Space<K, V>, s: Store, pairs: seq<(K, V)>)
    ensures ApplyBatch(s, PutOps(sp, pairs)) == PutAll(sp, s, pairs)
  {
    if pairs != [] {
      PutOpsPutAll(sp, s, pairs[..|pairs| - 1]);
      assert PutOps(sp, pairs)[..|pairs| - 1] == PutOps(sp, pairs[..|pairs| - 1]);
    }
  }

  lemma {:induction false} DeleteOpsDeleteAll<K, V>(sp: Space<K, V>, s: Store, keys: seq<K>)
    ensures ApplyBatch(s, DeleteOps(sp, keys)) == DeleteAllOf(sp, s, keys)
  {
    if keys != [] {
      DeleteOpsDeleteAll(sp, s, keys[..|keys| - 1]);
      assert DeleteOps(sp, keys)[..|keys| - 1] == DeleteOps(sp, keys[..|keys| - 1]);
    }
  }

  /** After many writes a key reads as its last pair says. */
  lemma {:induction false} LookupPutAll<K(!new), V(!new)>(sp: Space<K, V>, s: Store, pairs: seq<(K, V)>, j: nat)
    requires Faithful(sp.codec) && j < |pairs| && forall i :: j < i < |pairs| ==> pairs[i].0 != pairs[j].0
    ensures sp.Lookup(PutAll(sp, s, pairs), pairs[j].0) == Found(pairs[j].1)
  {
    var n := |pairs| - 1;
    LookupPut(sp, PutAll(sp, s, pairs[..n]), pairs[n].0, pairs[n].1, pairs[j].0);
    if j < n { LookupPutAll(sp, s, pairs[..n], j); }
  }

  /** And a key without a pair as before. */
  lemma {:induction false} LookupPutOthers<K(!new), V(!new)>(sp: Space<K, V>, s: Store, pairs: seq<(K, V)>, k: K)
    requires Faithful(sp.codec) && forall i :: 0 <= i < |pairs| ==> pairs[i].0 != k
    ensures sp.Lookup(PutAll(sp, s, pairs), k) == sp.Lookup(s, k)
  {
    if pairs != [] {
      var n := |pairs| - 1;
      LookupPut(sp, PutAll(sp, s, pairs[..n]), pairs[n].0, pairs[n].1, k);
      LookupPutOthers(sp, s, pairs[..n], k);
    }
  }

  /** After many deletes exactly the listed keys are missing. */
  lemma {:induction false} LookupDeleteAll<K(!new), V(!new)>(sp: Space<K, V>, s: Store, keys: seq<K>, k: K)
    requires Faithful(sp.codec)
    ensures sp.Lookup(DeleteAllOf(sp, s, keys), k)
            == if exists i :: 0 <= i < |keys| && keys[i] == k then KeyNotFound else sp.Lookup(s, k)
  {
    if keys != [] {
      var n := |keys| - 1;
      LookupDelete(sp, DeleteAllOf(sp, s, keys[..n]), keys[n], k);
      LookupDeleteAll(sp, s, keys[..n], k);
      if i :| 0 <= i < |keys| && keys[i] == k { assert i < n ==> keys[..n][i] == k; }
      if i :| 0 <= i < n && keys[..n][i] == k { assert keys[i] == k; }
    }
  }

  lemma {:induction false} AgreesAfterPuts<K(!new), V(!new)>(
    sp: Space<K, V>, items: map<K, V>, s: Store, pairs: seq<(K, V)>)
    requires Faithful(sp.codec) && Agrees(sp, items, s)
    ensures Agrees(sp, Updated(items, pairs), PutAll(sp, s, pairs))
  {
    if pairs != [] {
      var init, last := pairs[..|pairs| - 1], pairs[|pairs| - 1];
      AgreesAfterPuts(sp, items, s, init);
      AgreesAfterPut(sp, Updated(items, init), PutAll(sp, s, init), Updated(items, pairs), last.0, last.1);
    }
  }

  lemma {:induction false} AgreesAfterDeletes<K(!new), V(!new)>(
    sp: Space<K, V>, items: map<K, V>, s: Store, keys: seq<K>)
    requires Faithful(sp.codec) && Agrees(sp, items, s)
    ensures Agrees(sp, Without(items, keys), DeleteAllOf(sp, s, keys))
  {
    if keys != [] {
      var init, last := keys[..|keys| - 1], keys[|keys| - 1];
      AgreesAfterDeletes(sp, items, s, init);
      AgreesAfterDelete(sp, Without(items, init), DeleteAllOf(sp, s, init), last);
    }
  }
}
