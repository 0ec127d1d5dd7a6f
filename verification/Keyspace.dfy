/** Byte-string keys of the database, their order, and ranges that hold a prefix. */
module Keyspace {
  import opened Outcomes
  import opened Words

  type Path = seq<byte>

  // ---- keys ----

  /** A path and how much of it is prefix. */
  datatype DbKey = DbKey(path: Path, prefixLen: nat)

  function NewKey(prefix: Path, key: Path): DbKey
  {
    DbKey(prefix + key, |prefix|)
  }

  function PrefixOnly(prefix: Path): DbKey
  {
    NewKey(prefix, [])
  }

  function AddBucket(k: DbKey, bucket: Path): DbKey
  {
    DbKey(k.path + bucket, k.prefixLen + |bucket|)
  }

  function AddKey(k: DbKey, key: Path): DbKey
  {
    DbKey(k.path + key, k.prefixLen + |key|)
  }

  function NewWithBucket(prefix: Path, bucket: Path, key: Path): DbKey
  {
    AddKey(AddBucket(PrefixOnly(prefix), bucket), key)
  }

  /** A key built with a bucket counts all of its path as prefix, so an empty key gives the bucket's prefix. */
  lemma BucketKey(prefix: Path, bucket: Path, key: Path)
    ensures NewWithBucket(prefix, bucket, key) == DbKey(prefix + bucket + key, |prefix + bucket + key|)
  {
    assert prefix + [] == prefix;
  }

  // ---- lexicographic order ----

  predicate LexLe(a: Path, b: Path)
  {
    a == [] || (b != [] && (a[0] < b[0] || (a[0] == b[0] && LexLe(a[1..], b[1..]))))
  }

  predicate LexLt(a: Path, b: Path)
  {
    !LexLe(b, a)
  }

  /** One more byte at the end decides between paths that are equal so far. */
  lemma {:induction false} LexSnoc(a: Path, c: byte, b: Path, d: byte)
    requires |a| == |b|
    ensures LexLt(a + [c], b + [d]) <==> LexLt(a, b) || (a == b && c < d)
  {
    if a == [] {
      assert a + [c] == [c] && b + [d] == [d];
    } else {
      LexSnoc(a[1..], c, b[1..], d);
      assert (a + [c])[1..] == a[1..] + [c] && (b + [d])[1..] == b[1..] + [d];
      assert a == [a[0]] + a[1..] && b == [b[0]] + b[1..];
    }
  }

  predicate InRange(k: Path, from: Path, to: Path)
  {
    LexLe(from, k) && LexLt(k, to)
  }

  /** The least path above everything that starts with the prefix; none if the prefix is empty or all 0xFF. */
  function NextPrefix(p: Path): Option<Path>
  {
    if p == [] then None
    else
      var k := |p| - 1;
      if p[k] == 255 then NextPrefix(p[..k]) else Some(p[..k] + [p[k] + 1])
  }

  predicate AllMax(p: Path)
  {
    forall i :: 0 <= i < |p| ==> p[i] == 255
  }

  lemma {:induction false} NextPrefixExists(p: Path)
    ensures NextPrefix(p).None? <==> AllMax(p)
  {
    if p != [] {
      var k := |p| - 1;
      if p[k] == 255 { NextPrefixExists(p[..k]); }
    }
  }

  lemma {:induction false} NextPrefixCons(c: byte, p: Path)
    ensures NextPrefix(p).Some? ==> NextPrefix([c] + p) == Some([c] + NextPrefix(p).value)
    ensures NextPrefix(p).None? ==> NextPrefix([c] + p) == if c == 255 then None else Some([c + 1])
  {
    var q := [c] + p;
    if p == [] {
      assert q[..0] == [] && q == [c];
      if c < 255 { assert q[..0] + [c + 1] == [c + 1]; }
    } else {
      var k := |p| - 1;
      assert q[..k + 1] == [c] + p[..k] && q[k + 1] == p[k];
      if p[k] == 255 {
        NextPrefixCons(c, p[..k]);
      } else {
        assert [c] + p[..k] + [p[k] + 1] == [c] + (p[..k] + [p[k] + 1]);
      }
    }
  }

  lemma {:induction false} AboveAllMax(p: Path, k: Path)
    requires AllMax(p)
    ensures LexLe(p, k) <==> p <= k
  {
    if p != [] && k != [] {
      AboveAllMax(p[1..], k[1..]);
      assert p == [p[0]] + p[1..] && k == [k[0]] + k[1..];
    }
  }

  /** The range from a prefix to its successor holds exactly the paths that start with it. */
  lemma {:induction false} PrefixRange(p: Path, k: Path)
    requires NextPrefix(p).Some?
    ensures InRange(k, p, NextPrefix(p).value) <==> p <= k
  {
    var rest := p[1..];
    assert p == [p[0]] + rest;
    NextPrefixCons(p[0], rest);
    NextPrefixExists(rest);
    if k != [] {
      if NextPrefix(rest).Some? {
        PrefixRange(rest, k[1..]);
        assert NextPrefix(p).value[1..] == NextPrefix(rest).value;
      } else {
        AboveAllMax(rest, k[1..]);
        assert LexLe([p[0] + 1], k) <==> p[0] + 1 <= k[0];
      }
    }
  }

  // ---- stores ----

  type Store = map<Path, Path>

  datatype Op = Put(key: Path, value: Path) | Delete(key: Path) | DeleteRange(from: Path, to: Path)

  function Apply(s: Store, op: Op): Store
  {
    match op
    case Put(k, v) => s[k := v]
    case Delete(k) => s - {k}
    case DeleteRange(from, to) => map k | k in s && !InRange(k, from, to) :: s[k]
  }

  function ApplyBatch(s: Store, ops: seq<Op>): Store
  {
    if ops == [] then s else Apply(ApplyBatch(s, ops[..|ops| - 1]), ops[|ops| - 1])
  }

  lemma {:induction false} ApplyConcat(s: Store, a: seq<Op>, b: seq<Op>)
    ensures ApplyBatch(s, a + b) == ApplyBatch(ApplyBatch(s, a), b)
  {
    if b == [] {
      assert a + b == a;
    } else {
      ApplyConcat(s, a, b[..|b| - 1]);
      assert (a + b)[..|a + b| - 1] == a + b[..|b| - 1];
    }
  }

  /** Deleting the range of a prefix drops exactly the paths that start with it. */
  lemma DeletesPrefix(s: Store, p: Path)
    requires NextPrefix(p).Some?
    ensures Apply(s, DeleteRange(p, NextPrefix(p).value)) == map k | k in s && !(p <= k) :: s[k]
  {
    forall k | k in s ensures InRange(k, p, NextPrefix(p).value) <==> p <= k {
      PrefixRange(p, k);
    }
  }
}
