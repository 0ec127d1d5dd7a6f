/** Division: limb by limb for a one-word divisor, bitwise long division otherwise. */
module UintDiv {
  import opened Arith
  import opened Limbs
  import opened Words
  import opened Outcomes
  import opened UintAddSub
  import opened UintShift

  /** One digit of the word division: rem is below d, so the two-word quotient fits one word. */
  method DivideDigit(rem: u64, limb: u64, d: u64) returns (q: u64, r: u64)
    requires rem < d
    ensures r < d
    ensures Times(q, d) + r == rem * B + limb
  {
    PowWord();
    BitOrDisjoint(rem, 64, limb);
    DigitFits(rem, limb, d);
    var n: u128 := BitOr(rem * Pow(2, 64), limb);
    q, r := n / d, n % d;
    DivMod(n, d);
    TimesIs(q, d);
  }

  lemma DigitFits(rem: int, limb: int, d: int)
    requires 0 <= rem < d <= B && 0 <= limb < B
    ensures 0 <= (rem * B + limb) / d < B
    ensures 0 <= rem * B + limb < B * B
  {
    var n := rem * B + limb;
    MulLe(rem + 1, d, B);
    DivMod(n, d);
    if n / d >= B { MulLe(B, n / d, d); }
    if n / d < 0 { MulLe(n / d, -1, d); }
  }

  lemma DigitStep(a: Uint, done: Uint, i: nat, d: u64, was: u64, q: u64, rem: u64)
    requires i < |a|
    requires Times(Val(done), d) + was == Val(a[i + 1..])
    requires Times(q, d) + rem == was * B + a[i]
    ensures Times(Val([q] + done), d) + rem == Val(a[i..])
  {
    ValCons(a, i);
    ConsValue(q, done);
    DigitSum(Val(done), q, d, was, rem, a[i], Val(a[i + 1..]));
  }

  lemma ConsValue(q: u64, done: Uint)
    ensures Val([q] + done) == q + Val(done) * B
  {
    var t := [q] + done;
    ValCons(t, 0);
    assert t[0..] == t && t[1..] == done;
  }

  lemma DigitSum(v: int, q: int, d: nat, was: int, rem: int, limb: int, high: int)
    requires Times(v, d) + was == high && Times(q, d) + rem == was * B + limb
    ensures Times(q + v * B, d) + rem == limb + high * B
  {
    TimesIs(v, d);
    TimesIs(q, d);
    TimesIs(q + v * B, d);
    Regroup(q, v, B, d);
    ThreeFactors(v, d, B);
    MulAssoc(v, B, d);
  }

  method DivRemWord(a: Uint, d: u64) returns (out: Outcome<(Uint, u64)>)
    ensures out.Panicked? <==> d == 0 && |a| > 0
    ensures out.Returned? && d != 0 ==>
      var (q, r) := out.value;
      |q| == |a| && Times(Val(q), d) + r == Val(a) && r < d
  {
    if d == 0 {
      return if |a| > 0 then Panicked else Returned((a, 0));
    }
    var q, r := DivideLimbs(a, d);
    return Returned((q, r));
  }

  /** From the top limb down, each remainder is carried into the next digit. */
  method DivideLimbs(a: Uint, d: u64) returns (quotient: Uint, rem: u64)
    requires d != 0
    ensures |quotient| == |a| && Times(Val(quotient), d) + rem == Val(a) && rem < d
  {
    var limbs := new u64[|a|](i requires 0 <= i < |a| => a[i]);
    rem := 0;
    TimesIs(0, d);
    var i := |a|;
    ghost var done: Uint := [];
    while i > 0
      invariant 0 <= i <= |a| && rem < d
      invariant limbs[i..] == done && forall k :: 0 <= k < i ==> limbs[k] == a[k]
      invariant Times(Val(done), d) + rem == Val(a[i..])
    {
      i := i - 1;
      var q, r := DivideDigit(rem, limbs[i], d);
      DigitStep(a, done, i, d, rem, q, r);
      limbs[i] := q;
      rem := r;
      done := [q] + done;
      assert limbs[i..] == [limbs[i]] + limbs[i + 1..];
    }
    quotient := limbs[..];
    assert quotient == done && a[0..] == a;
  }

  /** The pair the division methods return is the quotient and the remainder. */
  lemma QuotientUnique(n: nat, d: nat, q: nat, r: nat)
    requires Times(q, d) + r == n && r < d
    ensures q == n / d && r == n % d
  {
    TimesIs(q, d);
    DivUnique(n, d, q, r);
  }

  /** The low v bits of x are zero. */
  ghost predicate LowClear(x: nat, v: nat)
  {
    exists h: nat :: x == h * Pow(2, v)
  }

  lemma LowClearZero(v: nat)
    ensures LowClear(0, v)
  {
    assert 0 == 0 * Pow(2, v);
  }

  lemma LowClearWeaken(x: nat, v: nat)
    requires LowClear(x, v + 1)
    ensures LowClear(x, v)
  {
    var h: nat :| x == h * Pow(2, v + 1);
    assert x == (2 * h) * Pow(2, v);
  }

  method SetBit(x: u64, v: nat) returns (y: u64)
    requires v < 64 && LowClear(x, v + 1)
    ensures y == x + Pow(2, v) && LowClear(y, v)
  {
    ghost var h: nat :| x == h * Pow(2, v + 1);
    BitOrDisjoint(h, v + 1, Pow(2, v));
    PowWord();
    PowAdd(2, 63 - v, v + 1);
    RoomForLow(h, Pow(2, v + 1), Pow(2, 63 - v), Pow(2, v));
    PowLess(2, v, 64);
    var bit: u64 := Pow(2, v);
    y := BitOr(x, bit);
    OddMultiple(h, Pow(2, v));
  }

  lemma OddMultiple(h: int, p: int)
    ensures h * (2 * p) + p == (2 * h + 1) * p
  {
  }

  lemma ScalePow(v: nat, idx: nat)
    ensures Scale(Pow(2, v), idx) == Pow(2, 64 * idx + v)
  {
    ScaleBits(1, idx, v);
    TimesIs(1, Pow(2, v));
    TimesIs(1, Pow(2, 64 * idx + v));
  }

  lemma TimesDouble(d: nat, s: nat)
    ensures Times(d, Pow(2, s + 1)) == 2 * Times(d, Pow(2, s))
  {
    TimesIs(d, Pow(2, s + 1));
    TimesIs(d, Pow(2, s));
    MulAssoc(d, 2, Pow(2, s));
  }

  /** The divisor aligned with the dividend loses no bit and is more than half of the dividend. */
  lemma Aligned(n: nat, d: nat, width: nat)
    requires 0 < BitLen(d) <= BitLen(n) <= width
    ensures Times(d, Pow(2, BitLen(n) - BitLen(d))) < Pow(2, width)
    ensures n < Times(d, Pow(2, BitLen(n) - BitLen(d) + 1))
  {
    var s, k := BitLen(n) - BitLen(d), BitLen(d);
    BitLenBounds(n);
    BitLenBounds(d);
    TimesIs(d, Pow(2, s));
    TimesIs(d, Pow(2, s + 1));
    PowAdd(2, k, s);
    PowAdd(2, k - 1, s + 1);
    MulLess(d, Pow(2, k), Pow(2, s));
    MulLe(Pow(2, k - 1), d, Pow(2, s + 1));
    PowMono(2, BitLen(n), width);
  }

  /** The quotient so far and the rest account for the whole dividend. */
  ghost predicate Balanced(n: nat, d: nat, ret: Uint, rest: nat)
  {
    rest + Times(Val(ret), d) == n
  }

  /** The bits of r below position s are zero. */
  ghost predicate BitsBelowClear(r: Uint, s: nat)
  {
    s <= 64 * |r| && (s > 0 ==> LowLimbsClear(r, (s - 1) / 64, (s - 1) % 64 + 1))
  }

  ghost predicate LowLimbsClear(r: Uint, i: nat, v: nat)
    requires i < |r|
  {
    (forall k :: 0 <= k < i ==> r[k] == 0) && LowClear(r[i], v)
  }

  /** Setting bit `shift` of the quotient pays for one subtraction of the shifted divisor. */
  lemma BitPays(d: nat, ret: Uint, y: u64, i: nat, v: nat, shift: nat)
    requires i < |ret| && shift == 64 * i + v && y == ret[i] + Pow(2, v)
    ensures Times(Val(ret[i := y]), d) == Times(Val(ret), d) + Times(d, Pow(2, shift))
  {
    ValUpdate(ret, i, y);
    ScaleAdd(ret[i], Pow(2, v), i);
    ScalePow(v, i);
    TimesAdd(Val(ret), Pow(2, shift), d);
    TimesSwap(d, Pow(2, shift));
  }

  lemma ClearAfterBit(r: Uint, shift: nat)
    requires shift < 64 * |r| && LowLimbsClear(r, shift / 64, shift % 64)
    ensures BitsBelowClear(r, shift)
  {
    if shift > 0 && shift % 64 == 0 { LowClearZero(64); }
  }

  /** Decides bit `shift` of the quotient: subtract the shifted divisor if it still fits. */
  method DecideBit(ret: array<u64>, sub: Uint, shiftCopy: Uint, shift: nat, ghost n: nat, ghost d: nat)
    returns (rest: Uint)
    requires |sub| == |shiftCopy| == ret.Length && shift < 64 * ret.Length
    requires Balanced(n, d, ret[..], Val(sub)) && BitsBelowClear(ret[..], shift + 1)
    requires Val(shiftCopy) == Times(d, Pow(2, shift)) && Val(sub) < Times(d, Pow(2, shift + 1))
    modifies ret
    ensures |rest| == |sub|
    ensures Balanced(n, d, ret[..], Val(rest)) && BitsBelowClear(ret[..], shift)
    ensures Val(rest) < Times(d, Pow(2, shift))
  {
    TimesDouble(d, shift);
    CmpIsNumeric(sub, shiftCopy);
    assert LowLimbsClear(ret[..], shift / 64, shift % 64 + 1);
    if Cmp(sub, shiftCopy) != Less {
      ghost var before := ret[..];
      var y := SetBit(ret[shift / 64], shift % 64);
      BitPays(d, before, y, shift / 64, shift % 64, shift);
      ret[shift / 64] := y;
      assert ret[..] == before[shift / 64 := y];
      var borrow;
      rest, borrow := OverflowingSub(sub, shiftCopy);
      assert !borrow;
    } else {
      LowClearWeaken(ret[shift / 64], shift % 64);
      rest := sub;
    }
    ClearAfterBit(ret[..], shift);
  }

  method DivRem(a: Uint, b: Uint) returns (out: Outcome<(Uint, Uint)>)
    requires |a| == |b|
    ensures out.Panicked? <==> Val(b) == 0
    ensures out.Returned? ==>
      var (q, r) := out.value;
      |q| == |r| == |a| && Times(Val(q), Val(b)) + Val(r) == Val(a) && Val(r) < Val(b)
  {
    var sub := a;
    var ret := new u64[|a|](i => 0);
    ZeroQuotient(Val(a), Val(b), ret[..]);
    var myBits := Bits(a);
    var yourBits := Bits(b);
    if yourBits == 0 {
      BitLenBounds(Val(b));
      return Panicked;
    }
    if myBits < yourBits {
      SmallerBits(Val(a), Val(b));
      return Returned((ret[..], sub));
    }
    var shift: nat := myBits - yourBits;
    var shiftCopy := AlignDivisor(a, b, shift);
    sub := LongDivide(ret, a, shiftCopy, shift, Val(b));
    return Returned((ret[..], sub));
  }

  /** The bitwise long division loop, from the aligned divisor down to bit 0 of the quotient. */
  method LongDivide(ret: array<u64>, a: Uint, aligned: Uint, topShift: nat, ghost d: nat) returns (sub: Uint)
    requires |a| == |aligned| == ret.Length && topShift < 64 * |a|
    requires Balanced(Val(a), d, ret[..], Val(a)) && BitsBelowClear(ret[..], topShift + 1)
    requires Val(aligned) == Times(d, Pow(2, topShift)) && Val(a) < Times(d, Pow(2, topShift + 1))
    modifies ret
    ensures |sub| == |a|
    ensures Balanced(Val(a), d, ret[..], Val(sub)) && Val(sub) < d
  {
    sub := a;
    var shiftCopy, shift := aligned, topShift;
    while true
      invariant |sub| == |shiftCopy| == |a| && 0 <= shift < 64 * |a|
      invariant Balanced(Val(a), d, ret[..], Val(sub)) && BitsBelowClear(ret[..], shift + 1)
      invariant Val(shiftCopy) == Times(d, Pow(2, shift)) && Val(sub) < Times(d, Pow(2, shift + 1))
      decreases shift
    {
      sub := DecideBit(ret, sub, shiftCopy, shift, Val(a), d);
      shiftCopy := HalveDivisor(shiftCopy, d, shift);
      if shift == 0 {
        break;
      }
      shift := shift - 1;
    }
    TimesIs(d, 1);
  }

  /** The divisor shifted up to the dividend's length; the shift neither overflows nor drops a bit. */
  method AlignDivisor(a: Uint, b: Uint, shift: nat) returns (r: Uint)
    requires |a| == |b| > 0 && 0 < BitLen(Val(b)) && BitLen(Val(a)) <= 64 * |a|
    requires BitLen(Val(a)) == BitLen(Val(b)) + shift
    ensures |r| == |a|
    ensures Val(r) == Times(Val(b), Pow(2, shift)) && Val(a) < Times(Val(b), Pow(2, shift + 1))
  {
    Aligned(Val(a), Val(b), 64 * |a|);
    var overflows;
    r, overflows := OverflowingShl(b, shift);
    assert !overflows;
    SmallMod(shift, 64 * |a|);
    SmallMod(Times(Val(b), Pow(2, shift)), Pow(2, 64 * |a|));
  }

  /** One right shift takes the divisor to the next lower bit position exactly. */
  method HalveDivisor(shiftCopy: Uint, ghost d: nat, ghost shift: nat) returns (r: Uint)
    requires |shiftCopy| > 0 && Val(shiftCopy) == Times(d, Pow(2, shift))
    ensures |r| == |shiftCopy|
    ensures shift > 0 ==> Val(r) == Times(d, Pow(2, shift - 1))
  {
    var overflows;
    r, overflows := OverflowingShr(shiftCopy, 1);
    assert !overflows;
    SmallMod(1, 64 * |shiftCopy|);
    assert Pow(2, 1) == 2;
    if shift > 0 { TimesDouble(d, shift - 1); }
  }

  lemma ZeroQuotient(n: nat, d: nat, r: Uint)
    requires forall i :: 0 <= i < |r| ==> r[i] == 0
    ensures Balanced(n, d, r, n)
    ensures forall s: nat :: s <= 64 * |r| ==> BitsBelowClear(r, s)
  {
    ValZeros(r);
    TimesIs(0, d);
    forall s: nat | s <= 64 * |r| ensures BitsBelowClear(r, s) {
      if s > 0 { LowClearZero((s - 1) % 64 + 1); }
    }
  }

  lemma SmallerBits(x: nat, y: nat)
    requires BitLen(x) < BitLen(y)
    ensures x < y
  {
    BitLenBounds(x);
    BitLenBounds(y);
    PowMono(2, BitLen(x), BitLen(y) - 1);
  }
}
