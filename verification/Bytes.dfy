/** Bytes of machine words and of 32-byte hashes. */
module Bytes {
  import opened Arith
  import opened Hashes
  import opened Keyspace
  import opened Words

  /** The low k bytes of x, most significant first. */
  function BeBytes(x: nat, k: nat): (bs: seq<byte>)
    ensures |bs| == k
  {
    if k == 0 then [] else BeBytes(x / 256, k - 1) + [x % 256]
  }

  /** The low k bytes of x, least significant first. */
  function LeBytes(x: nat, k: nat): (bs: seq<byte>)
    ensures |bs| == k
  {
    if k == 0 then [] else [x % 256] + LeBytes(x / 256, k - 1)
  }

  function HashBytes(h: Hash): (bs: seq<byte>)
    ensures |bs| == 32
  {
    BeBytes(h, 32)
  }

  lemma {:induction false} LeBytesInjective(x: nat, y: nat, k: nat)
    requires x < Pow(256, k) && y < Pow(256, k) && LeBytes(x, k) == LeBytes(y, k)
    ensures x == y
  {
    if k > 0 {
      assert LeBytes(x, k)[1..] == LeBytes(x / 256, k - 1);
      assert LeBytes(y, k)[1..] == LeBytes(y / 256, k - 1);
      assert LeBytes(x, k)[0] == x % 256 && LeBytes(y, k)[0] == y % 256;
      LeBytesInjective(x / 256, y / 256, k - 1);
    }
  }

  lemma {:induction false} BeBytesInjective(x: nat, y: nat, k: nat)
    requires x < Pow(256, k) && y < Pow(256, k) && BeBytes(x, k) == BeBytes(y, k)
    ensures x == y
  {
    if k > 0 {
      assert BeBytes(x, k)[..k - 1] == BeBytes(x / 256, k - 1);
      assert BeBytes(y, k)[..k - 1] == BeBytes(y / 256, k - 1);
      assert BeBytes(x, k)[k - 1] == x % 256 && BeBytes(y, k)[k - 1] == y % 256;
      BeBytesInjective(x / 256, y / 256, k - 1);
    }
  }

  lemma ByteQuotient(x: nat, p: nat)
    requires p > 0
    ensures x / 256 / p == x / (256 * p)
  {
    var q, r := x / 256 / p, x / 256 % p;
    DivMod(x / 256, p);
    MulAssoc(256, q, p);
    MulAssoc(q, 256, p);
    DivUnique(x, 256 * p, q, 256 * r + x % 256);
  }

  /** Byte i from the low end. */
  lemma {:induction false} LeBytesAt(x: nat, k: nat, i: nat)
    requires i < k
    ensures LeBytes(x, k)[i] == x / Pow(256, i) % 256
  {
    if i > 0 {
      LeBytesAt(x / 256, k - 1, i - 1);
      ByteQuotient(x, Pow(256, i - 1));
    }
  }

  /** Byte i from the high end. */
  lemma {:induction false} BeBytesAt(x: nat, k: nat, i: nat)
    requires i < k
    ensures BeBytes(x, k)[i] == x / Pow(256, k - 1 - i) % 256
  {
    if i < k - 1 {
      BeBytesAt(x / 256, k - 1, i);
      ByteQuotient(x, Pow(256, k - 2 - i));
    }
  }

  /** Big-endian bytes of one length compare like their numbers. */
  lemma {:induction false} BeBytesOrder(x: nat, y: nat, k: nat)
    requires x < Pow(256, k) && y < Pow(256, k)
    ensures LexLt(BeBytes(x, k), BeBytes(y, k)) <==> x < y
  {
    if k > 0 {
      BeBytesOrder(x / 256, y / 256, k - 1);
      LexSnoc(BeBytes(x / 256, k - 1), x % 256, BeBytes(y / 256, k - 1), y % 256);
      if BeBytes(x / 256, k - 1) == BeBytes(y / 256, k - 1) { BeBytesInjective(x / 256, y / 256, k - 1); }
    }
  }

  lemma HashBytesOrder(x: Hash, y: Hash)
    ensures LexLt(HashBytes(x), HashBytes(y)) <==> x < y
  {
    ByteRange();
    BeBytesOrder(x, y, 32);
  }

  lemma ByteRange()
    ensures Pow(256, 8) == 0x1_0000_0000_0000_0000
    ensures Pow(256, 32) == 0x1_0000_0000_0000_0000_0000_0000_0000_0000_0000_0000_0000_0000_0000_0000_0000_0000
  {
    assert Pow(256, 2) == 0x1_0000;
    PowAdd(256, 2, 2);
    assert Pow(256, 4) == 0x1_0000_0000;
    PowAdd(256, 4, 4);
    PowAdd(256, 8, 8);
    PowAdd(256, 16, 16);
  }

  lemma WordBytesInjective(x: u64, y: u64)
    requires LeBytes(x, 8) == LeBytes(y, 8)
    ensures x == y
  {
    ByteRange();
    LeBytesInjective(x, y, 8);
  }

  lemma HashBytesInjective(x: Hash, y: Hash)
    requires HashBytes(x) == HashBytes(y)
    ensures x == y
  {
    ByteRange();
    BeBytesInjective(x, y, 32);
  }
}
