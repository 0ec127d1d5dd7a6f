/** Left and right shifts of limb arrays. */
module UintShift {
  import opened Arith
  import opened Limbs
  import opened Words

  /** Shift left one bit at a time, dropping what leaves the word. */
  function ShlWord(x: u64, b: nat): u64
  {
    if b == 0 then x else 2 * ShlWord(x, b - 1) % B
  }

  /** Shift right one bit at a time. */
  function ShrWord(x: u64, b: nat): u64
  {
    if b == 0 then x else ShrWord(x, b - 1) / 2
  }

  lemma {:induction false} ShlWordIs(x: u64, b: nat)
    ensures ShlWord(x, b) == x * Pow(2, b) % B
  {
    if b == 0 {
      DivUnique(x, B, 0, x);
    } else {
      ShlWordIs(x, b - 1);
      DoubleMod(x * Pow(2, b - 1));
      assert x * Pow(2, b) == 2 * (x * Pow(2, b - 1));
    }
  }

  lemma DoubleMod(y: int)
    ensures 2 * (y % B) % B == 2 * y % B
  {
  }

  lemma {:induction false} ShrWordIs(x: u64, b: nat)
    ensures ShrWord(x, b) == x / Pow(2, b)
  {
    if b > 0 {
      ShrWordIs(x, b - 1);
      HalfQuotient(x, Pow(2, b - 1));
    }
  }

  lemma HalfQuotient(x: int, p: int)
    requires p > 0
    ensures x / p / 2 == x / (2 * p)
  {
    var q := x / p;
    DivMod(x, p);
    MulLe(0, q % 2, p);
    MulLe(q % 2, 1, p);
    assert q * p == (q / 2) * (2 * p) + (q % 2) * p;
    DivUnique(x, 2 * p, q / 2, (q % 2) * p + x % p);
  }

  lemma SplitByProduct(x: nat, q: nat, p: nat)
    requires p > 0 && q > 0 && x < q * p
    ensures (x * p) / (q * p) == x / q < p
    ensures (x * p) % (q * p) == (x % q) * p
    ensures x * p == (x / q) * (q * p) + (x % q) * p
  {
    var hi, lo := x / q, x % q;
    Regroup(lo, hi, q, p);
    MulLess(lo, q, p);
    MulLe(0, lo, p);
    DivUnique(x * p, q * p, hi, lo * p);
    if hi >= p { MulLe(p, hi, q); }
  }

  /** Shifting left splits a limb into the part that stays and the part carried out. */
  lemma {:induction false} ShlWordSplit(x: u64, b: nat)
    requires b < 64
    ensures Times(x, Pow(2, b)) == ShrWord(x, 64 - b) * B + ShlWord(x, b)
    ensures ShrWord(x, 64 - b) < Pow(2, b)
    ensures exists h: nat :: ShlWord(x, b) == h * Pow(2, b)
  {
    PowWord();
    PowAdd(2, 64 - b, b);
    ShlWordIs(x, b);
    ShrWordIs(x, 64 - b);
    TimesIs(x, Pow(2, b));
    SplitByProduct(x, Pow(2, 64 - b), Pow(2, b));
    var lo := x % Pow(2, 64 - b);
    assert ShlWord(x, b) == lo * Pow(2, b);
  }

  /** The two halves OR-ed into one result limb never overlap. */
  lemma OrIsSum(x: u64, y: u64, b: nat)
    requires 0 < b < 64
    ensures BitOr(ShlWord(x, b), ShrWord(y, 64 - b)) == ShlWord(x, b) + ShrWord(y, 64 - b) < B
    ensures BitOr(ShrWord(y, 64 - b), ShlWord(x, b)) == ShlWord(x, b) + ShrWord(y, 64 - b)
  {
    ShlWordSplit(x, b);
    ShlWordSplit(y, b);
    var h: nat :| ShlWord(x, b) == h * Pow(2, b);
    BitOrDisjoint(h, b, ShrWord(y, 64 - b));
    PowWord();
    PowAdd(2, 64 - b, b);
    RoomForLow(h, Pow(2, b), Pow(2, 64 - b), ShrWord(y, 64 - b));
  }

  /** A multiple of p below q*p leaves room for anything below p. */
  lemma RoomForLow(h: int, p: int, q: int, low: int)
    requires h * p < q * p && 0 <= low < p
    ensures h * p + low < q * p
  {
    if h >= q { MulLe(q, h, p); }
    MulLe(h + 1, q, p);
  }

  /** Bitwise OR of words with no common bits. */
  method OrWords(x: u64, y: u64) returns (z: u64)
    requires BitOr(x, y) == x + y < B
    ensures z == x + y
  {
    z := BitOr(x, y);
  }

  /** What the limbs of a left shift by w limbs and b bits are. */
  ghost predicate ShiftedLeft(a: Uint, r: Uint, w: nat, b: nat)
    requires b < 64
  {
    && |r| == |a|
    && (forall i :: 0 <= i < w && i < |r| ==> r[i] == 0)
    && (forall i :: w <= i < |r| ==> r[i] == ShlWord(a[i - w], b) + CarryUp(a, b, i - w))
  }

  /** The bits that limb k - 1 of a passes up to limb k. */
  function CarryUp(a: Uint, b: nat, k: nat): nat
    requires k <= |a| && b < 64
  {
    if k == 0 then 0 else ShrWord(a[k - 1], 64 - b)
  }

  lemma {:induction false} ShlPrefix(a: Uint, r: Uint, w: nat, b: nat, k: nat)
    requires b < 64 && w + k <= |a| && ShiftedLeft(a, r, w, b)
    ensures Val(r[..w + k]) + Scale(CarryUp(a, b, k), w + k) == Scale(Times(Val(a[..k]), Pow(2, b)), w)
  {
    if k == 0 {
      ValZeros(r[..w]);
      ScaleZero(w);
      TimesIs(0, Pow(2, b));
    } else {
      ShlPrefix(a, r, w, b, k - 1);
      ShlOneMore(a, r, w, b, k - 1);
    }
  }

  lemma {:induction false} ShlOneMore(a: Uint, r: Uint, w: nat, b: nat, j: nat)
    requires b < 64 && w + j < |a| && ShiftedLeft(a, r, w, b)
    requires Val(r[..w + j]) + Scale(CarryUp(a, b, j), w + j) == Scale(Times(Val(a[..j]), Pow(2, b)), w)
    ensures Val(r[..w + j + 1]) + Scale(CarryUp(a, b, j + 1), w + j + 1) == Scale(Times(Val(a[..j + 1]), Pow(2, b)), w)
  {
    ValTake(r, w + j);
    RowGrows(a, j, Pow(2, b), w);
    ShlStep(a, r, w, b, j);
  }

  lemma ShlStep(a: Uint, r: Uint, w: nat, b: nat, j: nat)
    requires b < 64 && w + j < |a| && ShiftedLeft(a, r, w, b)
    ensures Scale(r[w + j], w + j) + Scale(CarryUp(a, b, j + 1), w + j + 1)
            == Scale(CarryUp(a, b, j), w + j) + Scale(Times(a[j], Pow(2, b)), w + j)
  {
    ShlWordSplit(a[j], b);
    ShiftColumn(r[w + j], CarryUp(a, b, j + 1), CarryUp(a, b, j), Times(a[j], Pow(2, b)), w + j);
  }

  /** One column: a digit and its carry against the two terms they replace. */
  lemma ShiftColumn(y: int, c1: int, c0: int, x: int, k: nat)
    requires y + c1 * B == c0 + x
    ensures Scale(y, k) + Scale(c1, k + 1) == Scale(c0, k) + Scale(x, k)
  {
    ScaleAdd(y, c1 * B, k);
    ScaleUp(c1, k);
    ScaleAdd(c0, x, k);
  }

  /** Scaling by limbs and bits together is scaling by one power of two. */
  lemma ScaleBits(x: nat, w: nat, b: nat)
    ensures Scale(Times(x, Pow(2, b)), w) == Times(x, Pow(2, 64 * w + b))
  {
    TimesIs(x, Pow(2, b));
    ScaleIs(Times(x, Pow(2, b)), w);
    RadixBits(w);
    PowAdd(2, 64 * w, b);
    TimesIs(x, Pow(2, 64 * w + b));
    ProductChain(Times(x, Pow(2, b)), x, Pow(2, b), Pow(2, 64 * w), Pow(2, 64 * w + b));
  }

  lemma ShlValue(a: Uint, r: Uint, w: nat, b: nat, s: nat)
    requires b < 64 && w < |a| && ShiftedLeft(a, r, w, b) && s == 64 * w + b
    ensures Val(r) == Times(Val(a), Pow(2, s)) % Pow(2, 64 * |a|)
  {
    var n, m, p := |a|, |a| - w, Pow(2, b);
    ShlPrefix(a, r, w, b, m);
    assert r[..n] == r;
    RowSplits(a, p, w);
    ScaleBits(Val(a), w, b);
    ValBound(r);
    ScaleAdd(CarryUp(a, b, m), Times(Val(a[m..]), p), n);
    Wraps(Times(Val(a), Pow(2, s)), CarryUp(a, b, m) + Times(Val(a[m..]), p), Val(r), n);
  }

  method OverflowingShl(a: Uint, shift: nat) returns (r: Uint, overflows: bool)
    requires |a| > 0
    ensures |r| == |a|
    ensures overflows <==> shift >= 64 * |a|
    ensures Val(r) == Times(Val(a), Pow(2, shift % (64 * |a|))) % Pow(2, 64 * |a|)
  {
    overflows := shift >= 64 * |a|;
    var s := shift % (64 * |a|);
    r := ShlLimbs(a, s / 64, s % 64);
    ShlValue(a, r, s / 64, s % 64, s);
  }

  method ShlLimbs(a: Uint, leftWords: nat, leftShifts: nat) returns (r: Uint)
    requires leftWords < |a| && leftShifts < 64
    ensures ShiftedLeft(a, r, leftWords, leftShifts)
  {
    var ret := new u64[|a|](i => 0);
    for i := leftWords to |a|
      invariant forall j :: 0 <= j < leftWords ==> ret[j] == 0
      invariant forall j :: leftWords <= j < i ==> ret[j] == ShlWord(a[j - leftWords], leftShifts)
    {
      ret[i] := ShlWord(a[i - leftWords], leftShifts);
    }
    if leftShifts > 0 {
      OrCarriesUp(ret, a, leftWords, leftShifts);
    } else {
      forall k | 0 <= k <= |a| ensures CarryUp(a, 0, k) == 0 {
        if k > 0 { ShlWordSplit(a[k - 1], 0); }
      }
    }
    r := ret[..];
  }

  /** The second loop: joins to each limb the bits that the limb below passes up. */
  method OrCarriesUp(ret: array<u64>, a: Uint, leftWords: nat, leftShifts: nat)
    requires leftWords < |a| == ret.Length && 0 < leftShifts < 64
    requires forall j :: 0 <= j < leftWords ==> ret[j] == 0
    requires forall j :: leftWords <= j < |a| ==> ret[j] == ShlWord(a[j - leftWords], leftShifts)
    modifies ret
    ensures ShiftedLeft(a, ret[..], leftWords, leftShifts)
  {
    var leftOver := 64 - leftShifts;
    for i := leftWords + 1 to |a|
      invariant forall j :: 0 <= j < leftWords ==> ret[j] == 0
      invariant forall j :: leftWords <= j < i ==>
        ret[j] == ShlWord(a[j - leftWords], leftShifts) + CarryUp(a, leftShifts, j - leftWords)
      invariant forall j :: i <= j < |a| ==> ret[j] == ShlWord(a[j - leftWords], leftShifts)
    {
      ret[i] := OrWords(ret[i], ShrWord(a[i - 1 - leftWords], leftOver))
        by { OrIsSum(a[i - leftWords], a[i - 1 - leftWords], leftShifts); }
    }
  }

  /** What the limbs of a right shift by w limbs and b bits are. */
  ghost predicate ShiftedRight(a: Uint, r: Uint, w: nat, b: nat)
    requires b < 64 && w <= |a|
  {
    && |r| == |a|
    && (forall j :: |a| - w <= j < |r| ==> r[j] == 0)
    && (forall j :: 0 <= j < |a| - w ==> r[j] == ShrWord(a[j + w], b) + CarryDown(a, b, j + w + 1))
  }

  /** The bits that limb k of a passes down to limb k - 1. */
  function CarryDown(a: Uint, b: nat, k: nat): nat
    requires k <= |a| && b < 64
  {
    if k == |a| || b == 0 then 0 else ShlWord(a[k], 64 - b)
  }

  /** The low b bits of limb k, none above the top limb. */
  function LowBits(a: Uint, b: nat, k: nat): nat
    requires k <= |a|
  {
    if k == |a| then 0 else a[k] % Pow(2, b)
  }

  lemma CarryDownIs(a: Uint, b: nat, k: nat)
    requires k <= |a| && b < 64
    ensures CarryDown(a, b, k) == Times(LowBits(a, b, k), Pow(2, 64 - b))
  {
    TimesIs(LowBits(a, b, k), Pow(2, 64 - b));
    if k < |a| && b > 0 {
      PowWord();
      PowAdd(2, b, 64 - b);
      ShlWordIs(a[k], 64 - b);
      SplitByProduct(a[k], Pow(2, b), Pow(2, 64 - b));
    }
  }

  /** A result limb, shifted back, is its source limb less the bits dropped plus those taken from above. */
  lemma ShrLimb(x: u64, low: nat, b: nat)
    requires b < 64
    ensures Times(ShrWord(x, b) + Times(low, Pow(2, 64 - b)), Pow(2, b)) == x - x % Pow(2, b) + low * B
  {
    var p, q := Pow(2, b), Pow(2, 64 - b);
    PowWord();
    PowAdd(2, 64 - b, b);
    ShrWordIs(x, b);
    TimesIs(low, q);
    TimesIs(x / p + low * q, p);
    DivMod(x, p);
    MulAssoc(low, q, p);
    Distribute(x / p + low * q, x / p, low * q, p);
  }

  lemma {:induction false} ShrPrefix(a: Uint, r: Uint, w: nat, b: nat, k: nat)
    requires b < 64 && w + k <= |a| && w < |a| && ShiftedRight(a, r, w, b)
    ensures Times(Val(r[..k]), Pow(2, b)) + LowBits(a, b, w) == Val(a[w..w + k]) + Scale(LowBits(a, b, w + k), k)
  {
    if k == 0 {
      TimesIs(0, Pow(2, b));
    } else {
      ShrPrefix(a, r, w, b, k - 1);
      ShrOneMore(a, r, w, b, k - 1);
    }
  }

  lemma {:induction false} ShrOneMore(a: Uint, r: Uint, w: nat, b: nat, j: nat)
    requires b < 64 && w + j < |a| && ShiftedRight(a, r, w, b)
    requires Times(Val(r[..j]), Pow(2, b)) + LowBits(a, b, w) == Val(a[w..w + j]) + Scale(LowBits(a, b, w + j), j)
    ensures Times(Val(r[..j + 1]), Pow(2, b)) + LowBits(a, b, w)
            == Val(a[w..w + j + 1]) + Scale(LowBits(a, b, w + j + 1), j + 1)
  {
    RowGrows(r, j, Pow(2, b), 0);
    ValSlice(a, w, j);
    ShrStep(a, r, w, b, j);
  }

  lemma ValSlice(a: Uint, w: nat, j: nat)
    requires w + j < |a|
    ensures Val(a[w..w + j + 1]) == Val(a[w..w + j]) + Scale(a[w + j], j)
  {
    assert a[w..w + j + 1] == a[w..w + j] + [a[w + j]];
    ValSnoc(a[w..w + j], a[w + j]);
  }

  lemma {:induction false} ShrStep(a: Uint, r: Uint, w: nat, b: nat, j: nat)
    requires b < 64 && w + j < |a| && ShiftedRight(a, r, w, b)
    ensures Scale(Times(r[j], Pow(2, b)), j) + Scale(LowBits(a, b, w + j), j)
            == Scale(a[w + j], j) + Scale(LowBits(a, b, w + j + 1), j + 1)
  {
    CarryDownIs(a, b, w + j + 1);
    ShrLimb(a[w + j], LowBits(a, b, w + j + 1), b);
    ShiftColumn(a[w + j], LowBits(a, b, w + j + 1), Times(r[j], Pow(2, b)), LowBits(a, b, w + j), j);
  }

  lemma ShrValue(a: Uint, r: Uint, w: nat, b: nat, s: nat)
    requires b < 64 && w < |a| && ShiftedRight(a, r, w, b) && s == 64 * w + b
    ensures Val(r) == Val(a) / Pow(2, s)
  {
    var m := |a| - w;
    ShrPrefix(a, r, w, b, m);
    assert a[w..w + m] == a[w..];
    ScaleZero(m);
    ValSplit(r, m);
    ValZeros(r[m..]);
    ValSplit(a, w);
    ValBound(a[..w]);
    ShrTotal(Val(a), Val(a[..w]), Val(a[w..]), Val(r), LowBits(a, b, w), w, b, s);
  }

  lemma {:induction false} ShrTotal(a: int, low: int, high: int, r: nat, d: int, w: nat, b: nat, s: nat)
    requires a == low + Scale(high, w) && high == Times(r, Pow(2, b)) + d
    requires 0 <= low < Scale(1, w) && 0 <= d < Pow(2, b) && s == 64 * w + b
    ensures r == a / Pow(2, s)
  {
    var p := Pow(2, s);
    ScaleAdd(Times(r, Pow(2, b)), d, w);
    ScaleBits(r, w, b);
    ScaleBits(1, w, b);
    ScaleZero(w);
    ScaleMono(0, d, w);
    ScaleAdd(d, 1, w);
    ScaleMono(d + 1, Pow(2, b), w);
    TimesIs(1, Pow(2, b));
    TimesIs(1, p);
    TimesIs(r, p);
    DivUnique(a, p, r, low + Scale(d, w));
  }

  method OverflowingShr(a: Uint, shift: nat) returns (r: Uint, overflows: bool)
    requires |a| > 0
    ensures |r| == |a|
    ensures overflows <==> shift >= 64 * |a|
    ensures Val(r) == Val(a) / Pow(2, shift % (64 * |a|))
  {
    overflows := shift >= 64 * |a|;
    var s := shift % (64 * |a|);
    r := ShrLimbs(a, s / 64, s % 64);
    ShrValue(a, r, s / 64, s % 64, s);
  }

  method ShrLimbs(a: Uint, leftWords: nat, leftShifts: nat) returns (r: Uint)
    requires leftWords < |a| && leftShifts < 64
    ensures ShiftedRight(a, r, leftWords, leftShifts)
  {
    var ret := new u64[|a|](i => 0);
    for i := leftWords to |a|
      invariant forall j :: i - leftWords <= j < |a| ==> ret[j] == 0
      invariant forall j :: 0 <= j < i - leftWords ==> ret[j] == ShrWord(a[j + leftWords], leftShifts)
    {
      ret[i - leftWords] := ShrWord(a[i], leftShifts);
    }
    if leftShifts > 0 {
      OrCarriesDown(ret, a, leftWords, leftShifts);
    }
    r := ret[..];
  }

  /** The second loop: joins to each limb the bits that the limb above passes down. */
  method OrCarriesDown(ret: array<u64>, a: Uint, leftWords: nat, leftShifts: nat)
    requires leftWords < |a| == ret.Length && 0 < leftShifts < 64
    requires forall j :: |a| - leftWords <= j < |a| ==> ret[j] == 0
    requires forall j :: 0 <= j < |a| - leftWords ==> ret[j] == ShrWord(a[j + leftWords], leftShifts)
    modifies ret
    ensures ShiftedRight(a, ret[..], leftWords, leftShifts)
  {
    var leftOver := 64 - leftShifts;
    for i := leftWords + 1 to |a|
      invariant forall j :: |a| - leftWords <= j < |a| ==> ret[j] == 0
      invariant forall j :: 0 <= j < i - leftWords - 1 ==>
        ret[j] == ShrWord(a[j + leftWords], leftShifts) + CarryDown(a, leftShifts, j + leftWords + 1)
      invariant forall j :: i - leftWords - 1 <= j < |a| - leftWords ==> ret[j] == ShrWord(a[j + leftWords], leftShifts)
    {
      ret[i - leftWords - 1] := OrWords(ret[i - leftWords - 1], ShlWord(a[i], leftOver))
        by { OrIsSum(a[i], a[i - 1], leftOver); }
    }
  }
}
