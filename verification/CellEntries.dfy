/** What the state tree commits to for one live cell: its serialization and its leaf hash. */
module CellEntries {
  import opened Arith
  import opened Bytes
  import opened Hashes
  import opened Outcomes
  import opened Words

  /** The last three fields are carried along and are not committed to. */
  datatype CellEntry = CellEntry(
    capacity: u64,
    dataBytes: u64,
    lockHash: Hash,
    typeHash: Option<Hash>,
    dataHash: Hash,
    blockDaaScore: u64,
    isCellbase: bool,
    lockScript: Option<seq<byte>>,
    typeScript: Option<seq<byte>>,
    data: Option<seq<byte>>)

  function WithResolvedMetadata(
    e: CellEntry, lock: Option<seq<byte>>, type_: Option<seq<byte>>, data: Option<seq<byte>>): CellEntry
  {
    e.(lockScript := lock, typeScript := type_, data := data)
  }

  /** Resolving metadata sets just that and leaves the commitment alone. */
  lemma ResolvedMetadata(e: CellEntry, lock: Option<seq<byte>>, type_: Option<seq<byte>>, data: Option<seq<byte>>)
    ensures var r := WithResolvedMetadata(e, lock, type_, data);
            SameCommitment(r, e) && r.lockScript == lock && r.typeScript == type_ && r.data == data
  {
  }

  /** Equal in every committed field. */
  predicate SameCommitment(a: CellEntry, b: CellEntry)
  {
    WithResolvedMetadata(a, None, None, None) == WithResolvedMetadata(b, None, None, None)
  }

  function Head(e: CellEntry): (bs: seq<byte>)
    ensures |bs| == 48
  {
    LeBytes(e.capacity, 8) + LeBytes(e.dataBytes, 8) + HashBytes(e.lockHash)
  }

  function TypePart(e: CellEntry): (bs: seq<byte>)
    ensures |bs| == (if e.typeHash.Some? then 33 else 1)
  {
    match e.typeHash case Some(h) => [1] + HashBytes(h) case None => [0]
  }

  function Tail(e: CellEntry): (bs: seq<byte>)
    ensures |bs| == 41
  {
    HashBytes(e.dataHash) + LeBytes(e.blockDaaScore, 8) + [if e.isCellbase then 1 else 0]
  }

  function Serialize(e: CellEntry): (bs: seq<byte>)
    ensures |bs| == (if e.typeHash.Some? then 122 else 90)
  {
    Head(e) + TypePart(e) + Tail(e)
  }

  lemma HeadInjective(a: CellEntry, b: CellEntry)
    requires Head(a) == Head(b)
    ensures a.capacity == b.capacity && a.dataBytes == b.dataBytes && a.lockHash == b.lockHash
  {
    assert Head(a)[..8] == LeBytes(a.capacity, 8) && Head(b)[..8] == LeBytes(b.capacity, 8);
    assert Head(a)[8..16] == LeBytes(a.dataBytes, 8) && Head(b)[8..16] == LeBytes(b.dataBytes, 8);
    assert Head(a)[16..] == HashBytes(a.lockHash) && Head(b)[16..] == HashBytes(b.lockHash);
    WordBytesInjective(a.capacity, b.capacity);
    WordBytesInjective(a.dataBytes, b.dataBytes);
    HashBytesInjective(a.lockHash, b.lockHash);
  }

  lemma TypePartInjective(a: CellEntry, b: CellEntry)
    requires TypePart(a) == TypePart(b)
    ensures a.typeHash == b.typeHash
  {
    if a.typeHash.Some? {
      assert TypePart(a)[1..] == HashBytes(a.typeHash.value) && TypePart(b)[1..] == HashBytes(b.typeHash.value);
      HashBytesInjective(a.typeHash.value, b.typeHash.value);
    }
  }

  lemma TailInjective(a: CellEntry, b: CellEntry)
    requires Tail(a) == Tail(b)
    ensures a.dataHash == b.dataHash && a.blockDaaScore == b.blockDaaScore && a.isCellbase == b.isCellbase
  {
    assert Tail(a)[..32] == HashBytes(a.dataHash) && Tail(b)[..32] == HashBytes(b.dataHash);
    assert Tail(a)[32..40] == LeBytes(a.blockDaaScore, 8) && Tail(b)[32..40] == LeBytes(b.blockDaaScore, 8);
    assert Tail(a)[40] == (if a.isCellbase then 1 else 0) && Tail(b)[40] == (if b.isCellbase then 1 else 0);
    WordBytesInjective(a.blockDaaScore, b.blockDaaScore);
    HashBytesInjective(a.dataHash, b.dataHash);
  }

  /** Two entries serialize alike exactly when their committed fields agree. */
  lemma SerializeIsCommitment(a: CellEntry, b: CellEntry)
    ensures Serialize(a) == Serialize(b) <==> SameCommitment(a, b)
  {
    if Serialize(a) == Serialize(b) {
      var n := |Serialize(a)|;
      assert Serialize(a)[..48] == Head(a) && Serialize(b)[..48] == Head(b);
      assert Serialize(a)[48..n - 41] == TypePart(a) && Serialize(b)[48..n - 41] == TypePart(b);
      assert Serialize(a)[n - 41..] == Tail(a) && Serialize(b)[n - 41..] == Tail(b);
      HeadInjective(a, b);
      TypePartInjective(a, b);
      TailInjective(a, b);
    }
  }

  lemma HeadByte(e: CellEntry, i: nat)
    requires i < 32
    ensures i < 8 ==> Head(e)[i] == e.capacity / Pow(256, i) % 256 && Head(e)[8 + i] == e.dataBytes / Pow(256, i) % 256
    ensures Head(e)[16 + i] == e.lockHash / Pow(256, 31 - i) % 256
  {
    BeBytesAt(e.lockHash, 32, i);
    if i < 8 {
      LeBytesAt(e.capacity, 8, i);
      LeBytesAt(e.dataBytes, 8, i);
    }
  }

  lemma TailByte(e: CellEntry, i: nat)
    requires i < 32
    ensures Tail(e)[i] == e.dataHash / Pow(256, 31 - i) % 256
    ensures i < 8 ==> Tail(e)[32 + i] == e.blockDaaScore / Pow(256, i) % 256
    ensures Tail(e)[40] == if e.isCellbase then 1 else 0
  {
    BeBytesAt(e.dataHash, 32, i);
    if i < 8 { LeBytesAt(e.blockDaaScore, 8, i); }
  }

  /**
   * Where each field is and in which order its bytes are: byte i of an integer is its i-th digit in
   * base 256 from the low end, of a hash from the high end, and a flag comes before the optional hash.
   */
  lemma SerializedByte(e: CellEntry, i: nat)
    requires i < 32
    ensures var bs := Serialize(e);
            var t := if e.typeHash.Some? then 81 else 49;
            && |bs| == t + 41
            && (i < 8 ==> bs[i] == e.capacity / Pow(256, i) % 256 && bs[8 + i] == e.dataBytes / Pow(256, i) % 256)
            && bs[16 + i] == e.lockHash / Pow(256, 31 - i) % 256
            && bs[48] == (if e.typeHash.Some? then 1 else 0)
            && (e.typeHash.Some? ==> bs[49 + i] == e.typeHash.value / Pow(256, 31 - i) % 256)
            && bs[t + i] == e.dataHash / Pow(256, 31 - i) % 256
            && (i < 8 ==> bs[t + 32 + i] == e.blockDaaScore / Pow(256, i) % 256)
            && bs[t + 40] == (if e.isCellbase then 1 else 0)
  {
    HeadByte(e, i);
    TailByte(e, i);
    if e.typeHash.Some? { BeBytesAt(e.typeHash.value, 32, i); }
  }

  // ---- leaf hashes, for any digest function ----

  function Ascii(s: string): (bs: seq<byte>)
    ensures |bs| == |s|
  {
    seq(|s|, i requires 0 <= i < |s| => s[i] as int % 256)
  }

  function EntryPreimage(e: CellEntry): (bs: seq<byte>)
    ensures |bs| == (if e.typeHash.Some? then 138 else 106)
  {
    Ascii("spora-cell/entry") + Serialize(e)
  }

  function LeafPreimage(digest: seq<byte> -> Hash, outpointHash: Hash, e: CellEntry): (bs: seq<byte>)
    ensures |bs| == 79
  {
    Ascii("spora-cell/leaf") + HashBytes(outpointHash) + HashBytes(digest(EntryPreimage(e)))
  }

  function LeafHash(digest: seq<byte> -> Hash, outpointHash: Hash, e: CellEntry): Hash
  {
    digest(LeafPreimage(digest, outpointHash, e))
  }

  const ENTRY_TAG: seq<byte> := [115, 112, 111, 114, 97, 45, 99, 101, 108, 108, 47, 101, 110, 116, 114, 121]
  const LEAF_TAG: seq<byte> := [115, 112, 111, 114, 97, 45, 99, 101, 108, 108, 47, 108, 101, 97, 102]

  lemma Tags()
    ensures Ascii("spora-cell/entry") == ENTRY_TAG && Ascii("spora-cell/leaf") == LEAF_TAG
  {
  }

  /** What is hashed: a tag of its own, then the serialized entry, or the outpoint hash and the entry's digest. */
  lemma PreimageParts(digest: seq<byte> -> Hash, h: Hash, e: CellEntry)
    ensures EntryPreimage(e) == ENTRY_TAG + Serialize(e)
    ensures LeafPreimage(digest, h, e) == LEAF_TAG + BeBytes(h, 32) + BeBytes(digest(EntryPreimage(e)), 32)
  {
    Tags();
  }

  /** Attached metadata never reaches the leaf hash. */
  lemma LeafHashIgnoresMetadata(digest: seq<byte> -> Hash, h: Hash, a: CellEntry, b: CellEntry)
    requires SameCommitment(a, b)
    ensures LeafHash(digest, h, a) == LeafHash(digest, h, b)
  {
    SerializeIsCommitment(a, b);
  }

  predicate Collide(digest: seq<byte> -> Hash, x: seq<byte>, y: seq<byte>)
  {
    x != y && digest(x) == digest(y)
  }

  /** Equal leaves mean equal keys and committed fields, or the two leaf or the two entry preimages collide. */
  lemma LeafHashBinds(digest: seq<byte> -> Hash, g: Hash, a: CellEntry, h: Hash, b: CellEntry)
    requires LeafHash(digest, g, a) == LeafHash(digest, h, b)
    ensures || (g == h && SameCommitment(a, b))
            || Collide(digest, LeafPreimage(digest, g, a), LeafPreimage(digest, h, b))
            || Collide(digest, EntryPreimage(a), EntryPreimage(b))
  {
    var p, q := LeafPreimage(digest, g, a), LeafPreimage(digest, h, b);
    if p == q {
      var x, y := digest(EntryPreimage(a)), digest(EntryPreimage(b));
      assert p[15..47] == HashBytes(g) && q[15..47] == HashBytes(h);
      assert p[47..] == HashBytes(x) && q[47..] == HashBytes(y);
      HashBytesInjective(g, h);
      HashBytesInjective(x, y);
      if EntryPreimage(a) == EntryPreimage(b) {
        assert EntryPreimage(a)[16..] == Serialize(a) && EntryPreimage(b)[16..] == Serialize(b);
        SerializeIsCommitment(a, b);
      }
    }
  }
}
