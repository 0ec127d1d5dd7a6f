/** The 32-bit floating encoding of 256-bit difficulty targets. */
module CompactTarget {
  import opened Arith
  import opened Limbs
  import opened Words
  import opened UintShift

  type u32 = x: int | 0 <= x < 0x1_0000_0000

  /** 2^256, the number of targets. */
  const LIMIT: nat := 0x1_0000_0000_0000_0000_0000_0000_0000_0000_0000_0000_0000_0000_0000_0000_0000_0000

  lemma LimitIs(width: nat)
    requires width == 256
    ensures Pow(2, width) == LIMIT
  {
    var k := 64;
    PowWord();
    PowAdd(2, k, k);
    PowAdd(2, 2 * k, 2 * k);
  }

  // ---- meaning of the encoding ----

  /** The power of 256 that a target's mantissa counts; negative for targets below three bytes. */
  function Exponent(v: nat): int
    requires v > 0
  {
    BitLen(v) / 8 - 2
  }

  /** v without its k lowest bytes. */
  function DropBytes(v: nat, k: nat): nat
  {
    if k == 0 then v else DropBytes(v, k - 1) / 256
  }

  lemma {:induction false} DropBytesIs(v: nat, k: nat)
    ensures DropBytes(v, k) == v / Pow(256, k)
  {
    if k > 0 {
      DropBytesIs(v, k - 1);
      QuotientByte(v, Pow(256, k - 1));
    }
  }

  lemma QuotientByte(v: nat, p: nat)
    requires p > 0
    ensures v / p / 256 == v / (256 * p)
  {
    var q := v / p;
    DivMod(v, p);
    MulLe(q % 256, 255, p);
    MulLe(0, q % 256, p);
    assert q * p == (q / 256) * (256 * p) + (q % 256) * p;
    DivUnique(v, 256 * p, q / 256, (q % 256) * p + v % p);
  }

  /** The 16 to 23 leading bits of the target, byte-aligned. */
  function Mantissa(v: nat): nat
    requires v > 0
  {
    var k := Exponent(v);
    if k >= 0 then DropBytes(v, k) else Times(v, Pow(256, -k))
  }

  /** The encoding: mantissa in the low 24 bits, byte count in the high 8. */
  function Compact(v: nat): nat
  {
    if v == 0 then 0 else Mantissa(v) + (Exponent(v) + 3) * 0x100_0000
  }

  /** The decoding: a negative mantissa is zero, and shifts wrap at the width. */
  function Expand(bits: u32): nat
  {
    ExpandParts(bits / 0x100_0000, bits % 0x100_0000)
  }

  function ExpandParts(exponent: nat, word: nat): nat
  {
    var mantissa := if exponent <= 3 then word / Pow(256, 3 - exponent) else word;
    var shift := if exponent <= 3 then 0 else 8 * (exponent - 3);
    if mantissa > 0x7F_FFFF then 0 else Times(mantissa, Pow(2, shift % 256)) % LIMIT
  }

  lemma BytePower(k: nat)
    ensures Pow(256, k) == Pow(2, 8 * k)
  {
    assert Pow(2, 8) == 256;
    PowPower(2, 8, k);
  }

  lemma SmallPowers()
    ensures Pow(2, 15) == 0x8000 && Pow(2, 23) == 0x80_0000
  {
    assert Pow(2, 7) == 128;
    PowAdd(2, 7, 8);
    PowAdd(2, 8, 15);
  }

  /** Dropping whole bytes shortens a number by whole bytes. */
  lemma {:induction false} BitLenQuotient(v: nat, k: nat)
    requires v > 0 && 8 * k < BitLen(v)
    ensures DropBytes(v, k) > 0
    ensures BitLen(DropBytes(v, k)) == BitLen(v) - 8 * k
  {
    var p, q := Pow(256, k), DropBytes(v, k);
    DropBytesIs(v, k);
    BytePower(k);
    BitLenBounds(v);
    DivMod(v, p);
    if q == 0 {
      PowMono(2, 8 * k, BitLen(v) - 1);
    } else {
      BitLenShifted(q, 8 * k, v % p);
    }
  }

  lemma MantissaLen(v: nat)
    requires v > 0
    ensures Mantissa(v) > 0
    ensures BitLen(Mantissa(v)) == 16 + BitLen(v) % 8
    ensures 0x8000 <= Mantissa(v) < 0x80_0000
  {
    var k := Exponent(v);
    BitLenBounds(v);
    if k >= 0 {
      BitLenQuotient(v, k);
    } else {
      BytePower(-k);
      TimesIs(v, Pow(256, -k));
      BitLenShifted(v, 8 * -k, 0);
      MulLe(1, v, Pow(256, -k));
    }
    BitLenBounds(Mantissa(v));
    SmallPowers();
    PowMono(2, 15, BitLen(Mantissa(v)) - 1);
    PowMono(2, BitLen(Mantissa(v)), 23);
  }

  lemma BitLenWidth(v: nat, n: nat)
    requires v < Pow(2, n)
    ensures BitLen(v) <= n
  {
    BitLenBounds(v);
    if v > 0 { PowLess(2, BitLen(v) - 1, n); }
  }

  /** The encoding fits 32 bits, splits into byte count and mantissa, and never sets its sign bit, bit 23. */
  lemma CompactParts(v: nat)
    requires 0 < v < LIMIT
    ensures -2 <= Exponent(v) <= 30
    ensures Compact(v) < 0x1_0000_0000
    ensures Compact(v) / 0x100_0000 == Exponent(v) + 3
    ensures Compact(v) % 0x100_0000 == Mantissa(v) < 0x80_0000
  {
    MantissaLen(v);
    TargetLen(v);
  }

  lemma TargetLen(v: nat)
    requires v < LIMIT
    ensures BitLen(v) <= 256
  {
    LimitIs(256);
    BitLenWidth(v, 256);
  }

  /** The target with everything below its mantissa cleared. */
  function Truncated(v: nat): nat
  {
    if v == 0 then 0
    else if Exponent(v) < 0 then v
    else Times(Mantissa(v), Pow(256, Exponent(v)))
  }

  /** A mantissa and what it dropped, scaled back. */
  lemma TruncatedParts(v: nat)
    requires v > 0 && Exponent(v) >= 0
    ensures Truncated(v) <= v < Truncated(v) + Pow(256, Exponent(v))
    ensures Truncated(v) == Mantissa(v) * Pow(256, Exponent(v))
  {
    var p := Pow(256, Exponent(v));
    DropBytesIs(v, Exponent(v));
    DivMod(v, p);
    TimesIs(Mantissa(v), p);
  }

  lemma {:induction false} ExpandSmall(v: nat, k: nat)
    requires v < 0x80_0000 && k <= 3 && Times(v, Pow(256, k)) < 0x80_0000
    ensures ExpandParts(3 - k, Times(v, Pow(256, k))) == v
  {
    TimesIs(v, Pow(256, k));
    DivUnique(v * Pow(256, k), Pow(256, k), v, 0);
    TimesIs(v, 1);
    SmallMod(v, LIMIT);
  }

  lemma {:induction false} ExpandLarge(m: nat, k: nat)
    requires m <= 0x7F_FFFF && 0 <= k < 32 && Times(m, Pow(256, k)) < LIMIT
    ensures ExpandParts(k + 3, m) == Times(m, Pow(256, k))
  {
    BytePower(k);
    if k > 0 { SmallMod(8 * k, 256); }
    SmallMod(Times(m, Pow(256, k)), LIMIT);
  }

  /** Decoding an encoding truncates the target to its mantissa. */
  lemma ExpandCompact(v: nat)
    requires v < LIMIT
    ensures Compact(v) < 0x1_0000_0000
    ensures Expand(Compact(v)) == Truncated(v)
  {
    if v == 0 {
      TimesIs(0, 1);
      SmallMod(0, LIMIT);
    } else {
      CompactParts(v);
      if Exponent(v) < 0 {
        SmallTarget(v);
        ExpandSmall(v, -Exponent(v));
      } else {
        TruncatedParts(v);
        ExpandLarge(Mantissa(v), Exponent(v));
      }
    }
  }

  // ---- the encoding on numbers ----

  /** Sixteen to twenty-three bits. */
  lemma MantissaBits(m: nat)
    requires 0x8000 <= m < 0x80_0000
    ensures 16 <= BitLen(m) <= 23
  {
    SmallPowers();
    BitLenBounds(m);
    if BitLen(m) < 16 { PowMono(2, BitLen(m), 15); }
    if BitLen(m) > 23 { PowMono(2, 23, BitLen(m) - 1); }
  }

  /** A mantissa of 16 to 23 bits that counts a power of 256 is encoded with that power plus three above it. */
  lemma CompactMeans(m: nat, k: nat)
    requires 0x8000 <= m < 0x80_0000
    ensures m * Pow(256, k) >= 0 && Compact(m * Pow(256, k)) == m + (k + 3) * 0x100_0000
  {
    var v := m * Pow(256, k);
    MantissaBits(m);
    BytePower(k);
    BitLenShifted(m, 8 * k, 0);
    MulLe(1, m, Pow(256, k));
    DropBytesIs(v, k);
    DivUnique(v, Pow(256, k), m, 0);
  }

  /** A smaller target is moved up by j bytes until it has as many bits, and j is taken off the three. */
  lemma {:induction false} CompactSmall(v: nat, j: nat, m: nat)
    requires 0 < j <= 2 && m == v * Pow(256, j) && 0x8000 <= m < 0x80_0000
    ensures Compact(v) == m + (3 - j) * 0x100_0000
  {
    SmallLen(v, j, m);
    assert v > 0 && Exponent(v) + j == 0;
    TimesIs(v, Pow(256, j));
  }

  lemma {:induction false} SmallLen(v: nat, j: nat, m: nat)
    requires m == v * Pow(256, j) && 0x8000 <= m < 0x80_0000
    ensures v > 0 && 16 <= BitLen(v) + 8 * j <= 23
  {
    if v > 0 {
      MantissaBits(m);
      BytePower(j);
      BitLenShifted(v, 8 * j, 0);
    }
  }

  /**
   * Every 32-bit word as its number: up to an exponent of three the mantissa loses bytes, above it counts
   * a power of 256 that wraps with the width, and a mantissa with its sign bit set decodes to zero.
   */
  lemma ExpandMeans(bits: u32)
    ensures var e, w := bits / 0x100_0000, bits % 0x100_0000;
            Expand(bits) ==
              if e <= 3 then if e == 3 && w >= 0x80_0000 then 0 else w / Pow(256, 3 - e)
              else if w >= 0x80_0000 then 0 else w * Pow(256, (e - 3) % 32) % LIMIT
  {
    var e, w := bits / 0x100_0000, bits % 0x100_0000;
    if e <= 3 {
      ExpandShort(e, w);
    } else {
      BytePower((e - 3) % 32);
      WrappedShift(e - 3);
      TimesIs(w, Pow(256, (e - 3) % 32));
    }
  }

  lemma WrappedShift(k: nat)
    ensures 8 * k % 256 == 8 * (k % 32)
  {
    DivUnique(8 * k, 256, k / 32, 8 * (k % 32));
  }

  lemma ExpandShort(e: nat, w: nat)
    requires e <= 3 && w < 0x100_0000
    ensures ExpandParts(e, w) == if e == 3 && w >= 0x80_0000 then 0 else w / Pow(256, 3 - e)
  {
    var m := w / Pow(256, 3 - e);
    ShortMantissa(e, w);
    TimesIs(m, 1);
    SmallMod(m, LIMIT);
  }

  lemma ShortMantissa(e: nat, w: nat)
    requires e <= 3 && w < 0x100_0000
    ensures 0 <= w / Pow(256, 3 - e) <= w && (e < 3 ==> w / Pow(256, 3 - e) <= 0xFFFF) && (e == 3 ==> Pow(256, 3 - e) == 1)
  {
    if e < 3 {
      var p := Pow(256, 2 - e);
      PowMono(256, 0, 2 - e);
      ShortQuotient(w, p);
    }
  }

  lemma ShortQuotient(w: nat, p: nat)
    requires w < 0x100_0000 && p > 0
    ensures 0 <= w / (256 * p) <= 0xFFFF && w / (256 * p) <= w
  {
    var q := w / (256 * p);
    DivMod(w, 256 * p);
    if q < 0 { MulLe(q, -1, 256 * p); }
    if q > 0 { MulLe(256, 256 * p, q); }
  }

  lemma SmallTarget(v: nat)
    requires v > 0 && Exponent(v) < 0
    ensures v < 0x80_0000
  {
    BitLenBounds(v);
    SmallPowers();
    PowMono(2, BitLen(v), 23);
  }

  /** The codec loses less than one part in 2^15 and never rounds up. */
  lemma PrecisionLoss(v: nat)
    ensures Truncated(v) <= v
    ensures (v - Truncated(v)) * 0x8000 <= v
  {
    if v > 0 && Exponent(v) >= 0 {
      MantissaLen(v);
      TruncatedParts(v);
      MulLe(0x8000, Mantissa(v), Pow(256, Exponent(v)));
    }
  }

  lemma TruncatedLen(v: nat)
    requires v > 0
    ensures Truncated(v) > 0 && BitLen(Truncated(v)) == BitLen(v)
  {
    if Exponent(v) >= 0 {
      var k := Exponent(v);
      MantissaLen(v);
      TruncatedParts(v);
      BytePower(k);
      MulLe(1, Mantissa(v), Pow(256, k));
      BitLenShifted(Mantissa(v), 8 * k, 0);
    }
  }

  /** Encoding again after a round trip changes nothing. */
  lemma {:induction false} EncodingIsStable(v: nat)
    ensures Compact(Truncated(v)) == Compact(v)
  {
    if v > 0 && Exponent(v) >= 0 {
      TruncatedLen(v);
      TruncatedMantissa(v, Exponent(v));
    }
  }

  lemma TruncatedMantissa(v: nat, k: nat)
    requires v > 0 && k == Exponent(v)
    ensures DropBytes(Truncated(v), k) == Mantissa(v)
  {
    TruncatedParts(v);
    DropBytesIs(Truncated(v), k);
    DivUnique(Truncated(v), Pow(256, k), Mantissa(v), 0);
  }

  lemma BitLenMono(v: nat, w: nat)
    requires v <= w
    ensures BitLen(v) <= BitLen(w)
  {
    BitLenBounds(w);
    BitLenWidth(v, BitLen(w));
  }

  /** Larger targets never decode to smaller ones. */
  lemma TruncationIsMonotone(v: nat, w: nat)
    requires v <= w
    ensures Truncated(v) <= Truncated(w)
  {
    PrecisionLoss(v);
    if v > 0 && Exponent(w) >= 0 {
      BitLenMono(v, w);
      if Exponent(v) == Exponent(w) {
        SameExponent(v, w, Exponent(v));
        TruncatedParts(v);
        TruncatedParts(w);
      } else {
        BelowNextByte(v, w);
      }
    }
  }

  lemma {:induction false} SameExponent(v: nat, w: nat, k: nat)
    requires v <= w
    ensures DropBytes(v, k) * Pow(256, k) <= DropBytes(w, k) * Pow(256, k)
  {
    DropBytesMono(v, w, k);
    MulLe(DropBytes(v, k), DropBytes(w, k), Pow(256, k));
  }

  lemma {:induction false} DropBytesMono(v: nat, w: nat, k: nat)
    requires v <= w
    ensures DropBytes(v, k) <= DropBytes(w, k)
  {
    if k > 0 { DropBytesMono(v, w, k - 1); }
  }

  /** A target with a smaller exponent is below the truncation of one with a larger exponent. */
  lemma BelowNextByte(v: nat, w: nat)
    requires v > 0 && w > 0 && Exponent(v) < Exponent(w) && 0 <= Exponent(w)
    ensures v <= Truncated(w)
  {
    TruncatedLen(w);
    BitLenBounds(Truncated(w));
    BitLenBounds(v);
    PowMono(2, BitLen(v), BitLen(w) - 1);
  }

  // ---- the code on limbs ----

  /** The three leading bytes of a target of `size` bytes. */
  function LeadingBytes(v: nat, size: nat): nat
  {
    if size <= 3 then Times(v, Pow(256, 3 - size)) else DropBytes(v, size - 3)
  }

  /** Without the top bit of its top byte, a target's leading bytes are its mantissa. */
  lemma {:induction false} LeadingBytesFit(v: nat, size: nat)
    requires v > 0 && size == (BitLen(v) + 7) / 8 && BitLen(v) % 8 != 0
    ensures Exponent(v) + 3 == size
    ensures LeadingBytes(v, size) == Mantissa(v) < 0x80_0000
  {
    assert Exponent(v) + 3 == size;
    assert Mantissa(v) < 0x80_0000 by { MantissaLen(v); }
    if size == 3 {
      TimesIs(v, 1);
    }
  }

  /** Dropping the last of the leading bytes. */
  lemma {:induction false} LeadingBytesShorter(v: nat, size: nat)
    ensures LeadingBytes(v, size) / 256 == if size < 2 then Times(v, Pow(256, 2 - size)) else DropBytes(v, size - 2)
  {
    if size <= 2 {
      ScaledByte(v, 2 - size);
      TimesIs(v, 1);
    } else if size == 3 {
      TimesIs(v, 1);
      assert DropBytes(v, 1) == DropBytes(v, 0) / 256;
    }
  }

  /** With it, they are one byte longer than the mantissa. */
  lemma {:induction false} LeadingBytesOverflow(v: nat, size: nat)
    requires v > 0 && size == (BitLen(v) + 7) / 8 && BitLen(v) % 8 == 0
    ensures Exponent(v) + 2 == size
    ensures 0x80_0000 <= LeadingBytes(v, size) < 0x100_0000
    ensures LeadingBytes(v, size) / 256 == Mantissa(v)
  {
    assert Exponent(v) + 2 == size && BitLen(v) == 8 * size;
    LeadingBytesLen(v, size);
    FullThreeBytes(LeadingBytes(v, size));
    LeadingBytesShorter(v, size);
  }

  lemma {:induction false} LeadingBytesLen(v: nat, size: nat)
    requires v > 0 && BitLen(v) == 8 * size
    ensures BitLen(LeadingBytes(v, size)) == 24
  {
    if size <= 3 {
      BytePower(3 - size);
      TimesIs(v, Pow(256, 3 - size));
      BitLenShifted(v, 8 * (3 - size), 0);
    } else {
      BitLenQuotient(v, size - 3);
    }
  }

  lemma {:induction false} FullThreeBytes(c: nat)
    requires BitLen(c) == 24
    ensures 0x80_0000 <= c < 0x100_0000
  {
    BitLenBounds(c);
    SmallPowers();
    PowAdd(2, 1, 23);
  }

  lemma ScaledByte(v: nat, k: nat)
    ensures Times(v, Pow(256, k + 1)) / 256 == Times(v, Pow(256, k))
  {
    TimesIs(v, Pow(256, k));
    TimesIs(v, Pow(256, k + 1));
    MulAssoc(v, 256, Pow(256, k));
    MulAssoc(256, v, Pow(256, k));
  }

  /** A value that fits one word is its lowest limb. */
  lemma {:induction false} LowestLimb(a: Uint)
    requires |a| > 0 && Val(a) < B
    ensures a[0] == Val(a)
  {
    ValCons(a, 0);
    assert a[0..] == a;
  }

  lemma TargetFits(a: Uint)
    requires |a| == 4
    ensures Val(a) < LIMIT
  {
    ValBound(a);
    RadixBits(|a|);
    LimitIs(64 * |a|);
  }

  /** The first three bytes of the target, by a word shift or a right shift of the limbs. */
  method TakeLeadingBytes(a: Uint, size: nat) returns (compact: u32)
    requires |a| == 4 && size == (BitLen(Val(a)) + 7) / 8
    ensures compact == LeadingBytes(Val(a), size)
  {
    assert 0 <= LeadingBytes(Val(a), size) < 0x100_0000 by { LeadingBytesBound(Val(a), size); }
    if size <= 3 {
      SmallTargetWord(a, size);
      compact := TruncateToU32(ShlWord(a[0], 8 * (3 - size)));
    } else {
      var word := ShiftDownBytes(a, size);
      compact := TruncateToU32(word);
    }
  }

  /** `as u32` on a word. */
  method TruncateToU32(x: u64) returns (y: u32)
    ensures x < 0x1_0000_0000 ==> y == x
  {
    y := x % 0x1_0000_0000;
  }

  method ShiftDownBytes(a: Uint, size: nat) returns (word: u64)
    requires |a| == 4 && size == (BitLen(Val(a)) + 7) / 8 && size > 3
    requires LeadingBytes(Val(a), size) < 0x100_0000
    ensures word == LeadingBytes(Val(a), size)
  {
    TargetFits(a);
    TargetLen(Val(a));
    var bn, overflows := OverflowingShr(a, 8 * (size - 3));
    assert !overflows;
    SmallMod(8 * (size - 3), 256);
    BytePower(size - 3);
    DropBytesIs(Val(a), size - 3);
    LowestLimb(bn);
    word := bn[0];
  }

  lemma {:induction false} LeadingBytesBound(v: nat, size: nat)
    requires size == (BitLen(v) + 7) / 8
    ensures 0 <= LeadingBytes(v, size) < 0x100_0000
  {
    if v == 0 {
      TimesIs(0, Pow(256, 3));
    } else if BitLen(v) % 8 == 0 {
      LeadingBytesOverflow(v, size);
    } else {
      LeadingBytesFit(v, size);
    }
  }

  lemma {:induction false} SmallTargetWord(a: Uint, size: nat)
    requires |a| > 0 && size == (BitLen(Val(a)) + 7) / 8 <= 3
    ensures ShlWord(a[0], 8 * (3 - size)) == LeadingBytes(Val(a), size)
  {
    BitLenBounds(Val(a));
    PowWord();
    PowMono(2, BitLen(Val(a)), 64);
    LowestLimb(a);
    ShlWordIs(a[0], 8 * (3 - size));
    BytePower(3 - size);
    TimesIs(Val(a), Pow(256, 3 - size));
    LeadingBytesBound(Val(a), size);
    SmallMod(LeadingBytes(Val(a), size), B);
  }

  /** Bit 23 of a 24-bit word. */
  predicate SignBit(c: u32) { c / 0x80_0000 % 2 == 1 }

  lemma SignBitIs(c: u32)
    requires c < 0x100_0000
    ensures SignBit(c) <==> c >= 0x80_0000
  {
  }

  method CompactTargetBits(a: Uint) returns (bits: u32)
    requires |a| == 4
    ensures bits == Compact(Val(a))
  {
    var n := Bits(a);
    var size := (n + 7) / 8;
    var compact := TakeLeadingBytes(a, size);
    compact, size := FoldSignBit(compact, size, Val(a));
    if Val(a) > 0 {
      TargetFits(a);
      CompactParts(Val(a));
    }
    bits := OrSize(compact, size);
  }

  /** A mantissa must not look negative: drop a byte and count it in the size. */
  method FoldSignBit(compact: u32, size: nat, ghost v: nat) returns (c: u32, s: nat)
    requires size == (BitLen(v) + 7) / 8
    requires compact == LeadingBytes(v, size)
    ensures v == 0 ==> c == 0 && s == 0
    ensures v > 0 ==> c == Mantissa(v) && s == Exponent(v) + 3
  {
    c, s := compact, size;
    if v == 0 {
      TimesIs(0, Pow(256, 3));
    } else if BitLen(v) % 8 == 0 {
      LeadingBytesOverflow(v, size);
    } else {
      LeadingBytesFit(v, size);
    }
    if v > 0 { SignBitIs(c); }
    if SignBit(c) {
      c, s := c / 256, s + 1;
    }
  }

  method OrSize(compact: u32, size: nat) returns (bits: u32)
    requires compact < 0x80_0000 && size < 256
    ensures bits == compact + size * 0x100_0000
  {
    SmallPowers();
    PowAdd(2, 1, 23);
    BitOrDisjoint(size, 24, compact);
    bits := BitOr(compact, size * 0x100_0000);
  }

  method FromCompactTargetBits(bits: u32) returns (r: Uint)
    ensures |r| == 4 && Val(r) == Expand(bits)
  {
    var unshifted := bits / 0x100_0000;
    var mantissa, exponent := bits % 0x100_0000, 0;
    if unshifted <= 3 {
      BytePower(3 - unshifted);
      mantissa := mantissa / Pow(2, 8 * (3 - unshifted));
    } else {
      exponent := 8 * (unshifted - 3);
    }
    if mantissa > 0x7F_FFFF {
      r := [0, 0, 0, 0];
      ValZeros(r);
    } else {
      r := ShiftMantissa(mantissa, exponent);
    }
  }

  method ShiftMantissa(mantissa: u64, exponent: nat) returns (r: Uint)
    ensures |r| == 4 && Val(r) == Times(mantissa, Pow(2, exponent % 256)) % LIMIT
  {
    var word: Uint := [mantissa, 0, 0, 0];
    WordValue(word);
    LimitIs(64 * |word|);
    var overflows;
    r, overflows := OverflowingShl(word, exponent);
  }

  lemma WordValue(a: Uint)
    requires |a| == 4 && a[1] == a[2] == a[3] == 0
    ensures Val(a) == a[0]
  {
    ValCons(a, 0);
    assert a[0..] == a;
    ValZeros(a[1..]);
  }

  /** The whole codec: decoding an encoding truncates, loses at most 2^-15, and encodes to the same bits. */
  lemma CodecRoundTrip(v: nat)
    requires v < LIMIT
    ensures Compact(v) < 0x1_0000_0000
    ensures var y := Expand(Compact(v));
            && y <= v
            && (v - y) * 0x8000 <= v
            && Compact(y) == Compact(v)
  {
    ExpandCompact(v);
    PrecisionLoss(v);
    EncodingIsStable(v);
  }

  lemma CodecIsMonotone(v: nat, w: nat)
    requires v <= w < LIMIT
    ensures Compact(v) < 0x1_0000_0000 && Compact(w) < 0x1_0000_0000
    ensures Expand(Compact(v)) <= Expand(Compact(w))
  {
    ExpandCompact(v);
    ExpandCompact(w);
    TruncationIsMonotone(v, w);
  }
}
