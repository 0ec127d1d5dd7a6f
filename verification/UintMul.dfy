/** Schoolbook multiplication truncated to the width, and what its overflow flag really reports. */
module UintMul {
  import opened Arith
  import opened Limbs
  import opened Words

  /** One column of a row: the word product, what was there and the carry split into digit and carry. */
  lemma MulColumn(x: int, y: nat, prev: int, was: int, lo: int, hi: int, k: nat)
    requires lo + hi * B == Times(x, y) + prev + was
    ensures Scale(lo, k) + Scale(hi, k + 1) == Scale(Times(x, y), k) + Scale(prev, k) + Scale(was, k)
  {
    ScaleAdd(lo, hi * B, k);
    ScaleUp(hi, k);
    ScaleAdd(Times(x, y), prev, k);
    ScaleAdd(Times(x, y) + prev, was, k);
  }

  /** A word product plus two words fits in 128 bits; it is split into low and high word. */
  method MulAddWords(x: u64, y: u64, c: u64, d: u64) returns (lo: u64, hi: u64)
    ensures lo + hi * B == Times(x, y) + c + d
  {
    ProductFits(x, y, c, d);
    var n: u128 := x * y + c + d;
    lo, hi := n % B, n / B;
  }

  lemma ProductFits(x: u64, y: u64, c: u64, d: u64)
    ensures x * y == Times(x, y) >= 0
    ensures x * y + c + d < B * B
  {
    TimesIs(x, y);
    MulLe(0, x, y);
    MulLe(x, B - 1, y);
  }

  method CarryingMulWord(a: Uint, m: u64) returns (r: Uint, carry: u64)
    ensures |r| == |a|
    ensures Val(r) + Times(Pow(2, 64 * |a|), carry) == Times(Val(a), m)
  {
    var limbs := new u64[|a|](i requires 0 <= i < |a| => a[i]);
    carry := 0;
    TimesIs(0, m);
    for i := 0 to |a|
      invariant forall k :: i <= k < |a| ==> limbs[k] == a[k]
      invariant Val(limbs[..i]) + Scale(carry, i) == Times(Val(a[..i]), m)
    {
      ghost var done := limbs[..i];
      assert limbs[i] == a[i];
      var lo, hi := MulAddWords(limbs[i], m, 0, carry);
      WordStep(a, m, done, i, carry, lo, hi);
      limbs[i] := lo;
      carry := hi;
      assert limbs[..i + 1] == done + [lo];
    }
    r := limbs[..];
    assert limbs[..|a|] == r && a[..|a|] == a;
    ScaleByPower(carry, |a|);
  }

  lemma WordStep(a: Uint, m: u64, done: Uint, i: nat, was: u64, lo: u64, hi: u64)
    requires i < |a| && |done| == i
    requires Val(done) + Scale(was, i) == Times(Val(a[..i]), m)
    requires lo + hi * B == Times(a[i], m) + was
    ensures Val(done + [lo]) + Scale(hi, i + 1) == Times(Val(a[..i + 1]), m)
  {
    ValSnoc(done, lo);
    MulColumn(a[i], m, 0, was, lo, hi, i);
    ScaleZero(i);
    RowGrows(a, i, m, 0);
  }

  /** The products of y with the limbs of a that still fit when moved up by k limbs. */
  ghost function Fitting(a: Uint, y: u64, k: nat): (v: int)
    requires k <= |a|
    ensures v >= 0
  {
    TimesSwap(Val(a[..|a| - k]), y);
    Times(Val(a[..|a| - k]), y)
  }

  /** The products of y with the other limbs of a. */
  ghost function Outside(a: Uint, y: u64, k: nat): (v: int)
    requires k <= |a|
    ensures v >= 0
  {
    TimesSwap(Val(a[|a| - k..]), y);
    Times(Val(a[|a| - k..]), y)
  }

  /** The limb products the loops visit: those of a[i] and b[k] with i + k below the width, for k < j. */
  ghost function Visited(a: Uint, b: Uint, j: nat): int
    requires j <= |b| == |a|
  {
    if j == 0 then 0 else Visited(a, b, j - 1) + Scale(Fitting(a, b[j - 1], j - 1), j - 1)
  }

  /** The limb products never formed, in units of the width's modulus. */
  ghost function Skipped(a: Uint, b: Uint, j: nat): nat
    requires j <= |b| == |a|
  {
    if j == 0 then 0 else Skipped(a, b, j - 1) + Outside(a, b[j - 1], j - 1)
  }

  /** Every product is the visited limb products plus the skipped ones. */
  lemma {:induction false} ProductSplits(a: Uint, b: Uint, j: nat)
    requires j <= |b| == |a|
    ensures Times(Val(b[..j]), Val(a)) == Visited(a, b, j) + Scale(Skipped(a, b, j), |a|)
  {
    if j == 0 {
      ScaleZero(|a|);
      TimesIs(0, Val(a));
    } else {
      ProductSplits(a, b, j - 1);
      SplitsStep(a, b, j - 1);
    }
  }

  lemma {:induction false} SplitsStep(a: Uint, b: Uint, k: nat)
    requires k < |b| == |a|
    requires Times(Val(b[..k]), Val(a)) == Visited(a, b, k) + Scale(Skipped(a, b, k), |a|)
    ensures Times(Val(b[..k + 1]), Val(a)) == Visited(a, b, k + 1) + Scale(Skipped(a, b, k + 1), |a|)
  {
    OneMoreRow(a, b, k);
    ScaleAdd(Skipped(a, b, k), Outside(a, b[k], k), |a|);
  }

  /** One more limb of b contributes its visited products and its skipped ones. */
  lemma {:induction false} OneMoreRow(a: Uint, b: Uint, k: nat)
    requires k < |b| == |a|
    ensures Times(Val(b[..k + 1]), Val(a)) == Times(Val(b[..k]), Val(a))
              + Scale(Fitting(a, b[k], k), k) + Scale(Outside(a, b[k], k), |a|)
  {
    ValTake(b, k);
    TimesAdd(Val(b[..k]), Scale(b[k], k), Val(a));
    ScaleTimes(b[k], Val(a), k);
    TimesSwap(b[k], Val(a));
    RowSplits(a, b[k], k);
  }

  /** Every limb product outside the visited triangle is zero. */
  predicate NothingSkipped(a: Uint, b: Uint)
    requires |a| == |b|
  {
    forall i, k :: 0 <= i < |a| && 0 <= k < |b| && i + k >= |a| ==> a[i] == 0 || b[k] == 0
  }

  lemma {:induction false} SkippedZero(a: Uint, b: Uint, j: nat)
    requires j <= |b| == |a|
    ensures Skipped(a, b, j) == 0 <==>
            forall i, k :: 0 <= i < |a| && 0 <= k < j && i + k >= |a| ==> a[i] == 0 || b[k] == 0
  {
    if j > 0 {
      var k := j - 1;
      SkippedZero(a, b, k);
      var top := a[|a| - k..];
      ValZeros(top);
      TimesIs(Val(top), b[k]);
      MulLe(0, Val(top), b[k]);
      if Val(top) > 0 && b[k] > 0 {
        MulLe(1, Val(top), b[k]);
        var t :| 0 <= t < |top| && top[t] != 0;
        assert a[|a| - k + t] != 0;
      } else if b[k] > 0 {
        assert forall i :: |a| - k <= i < |a| ==> a[i] == top[i - (|a| - k)];
      }
    }
  }

  lemma RowStep(a: Uint, y: u64, i: nat, j: nat, start: int, s: Uint, was: u64, lo: u64, hi: u64)
    requires i + j < |a| == |s|
    requires Val(s) + Scale(was, i + j) == start + Scale(Times(Val(a[..i]), y), j)
    requires lo + hi * B == Times(a[i], y) + s[i + j] + was
    ensures Val(s[i + j := lo]) + Scale(hi, i + j + 1) == start + Scale(Times(Val(a[..i + 1]), y), j)
  {
    MulColumn(a[i], y, s[i + j], was, lo, hi, i + j);
    ValUpdate(s, i + j, lo);
    RowGrows(a, i, y, j);
  }

  method OverflowingMul(a: Uint, b: Uint) returns (r: Uint, carryOut: bool)
    requires |a| == |b|
    ensures |r| == |a|
    ensures Val(r) == Times(Val(b), Val(a)) % Pow(2, 64 * |a|)
    ensures carryOut <==> Visited(a, b, |a|) >= Pow(2, 64 * |a|)
    ensures Times(Val(b), Val(a)) >= Pow(2, 64 * |a|) <==> carryOut || !NothingSkipped(a, b)
  {
    var n := |a|;
    var result := new u64[n](i => 0);
    ValZeros(result[..]);
    ScaleZero(n);
    carryOut := false;
    ghost var lost: int := 0;
    for j := 0 to n
      invariant Val(result[..]) + Scale(lost, n) == Visited(a, b, j)
      invariant 0 <= lost
      invariant carryOut <==> lost > 0
    {
      ghost var was := Val(result[..]);
      var carry := AddRow(result, a, b[j], j);
      RowAdded(a, b, j, was, Val(result[..]), lost, carry);
      carryOut := carryOut || carry != 0;
      lost := lost + carry;
    }
    r := result[..];
    MulWraps(a, b, r, lost);
    OverflowIff(a, b);
  }

  lemma RowAdded(a: Uint, b: Uint, j: nat, was: int, v: int, lost: int, carry: int)
    requires j < |b| == |a|
    requires was + Scale(lost, |a|) == Visited(a, b, j)
    requires v + Scale(carry, |a|) == was + Scale(Fitting(a, b[j], j), j)
    ensures v + Scale(lost + carry, |a|) == Visited(a, b, j + 1)
  {
    ScaleAdd(lost, carry, |a|);
  }

  /** The inner loop: adds y times the limbs of a that still fit, from position j upward. */
  method AddRow(result: array<u64>, a: Uint, y: u64, j: nat) returns (carry: u64)
    requires j <= result.Length == |a|
    modifies result
    ensures Val(result[..]) + Scale(carry, |a|) == old(Val(result[..])) + Scale(Fitting(a, y, j), j)
  {
    carry := 0;
    var i := 0;
    ghost var start := Val(result[..]);
    ScaleZero(j);
    TimesIs(0, y);
    while i + j < |a|
      invariant 0 <= i <= |a| - j
      invariant Val(result[..]) + Scale(carry, i + j) == start + Scale(Times(Val(a[..i]), y), j)
    {
      var lo, hi := MulAddWords(a[i], y, result[i + j], carry);
      ghost var before := result[..];
      RowStep(a, y, i, j, start, before, carry, lo, hi);
      result[i + j] := lo;
      assert result[..] == before[i + j := lo];
      carry := hi;
      i := i + 1;
    }
  }

  lemma MulWraps(a: Uint, b: Uint, r: Uint, lost: int)
    requires |a| == |b| == |r| && 0 <= lost
    requires Val(r) + Scale(lost, |a|) == Visited(a, b, |a|)
    ensures Val(r) == Times(Val(b), Val(a)) % Pow(2, 64 * |a|)
    ensures lost > 0 <==> Visited(a, b, |a|) >= Pow(2, 64 * |a|)
  {
    ValBound(r);
    ProductSplits(a, b, |a|);
    assert b[..|a|] == b;
    LostCarries(Times(Val(b), Val(a)), Visited(a, b, |a|), Val(r), lost, Skipped(a, b, |a|), |a|);
  }

  lemma {:induction false} LostCarries(v: int, visited: int, r: int, lost: int, skipped: int, n: nat)
    requires v == visited + Scale(skipped, n)
    requires r + Scale(lost, n) == visited
    requires 0 <= r < Scale(1, n) && 0 <= lost
    ensures r == v % Pow(2, 64 * n)
    ensures lost > 0 <==> visited >= Pow(2, 64 * n)
  {
    ScaleAdd(lost, skipped, n);
    Wraps(v, lost + skipped, r, n);
    RadixBits(n);
    ScaleZero(n);
    ScaleMono(1, lost, n);
  }

  /** A raised flag is always right. */
  lemma {:induction false} FlagIsSound(a: Uint, b: Uint)
    requires |a| == |b|
    requires Visited(a, b, |a|) >= Pow(2, 64 * |a|)
    ensures Times(Val(b), Val(a)) >= Pow(2, 64 * |a|)
  {
    OverflowParts(a, b);
  }

  lemma {:induction false} OverflowParts(a: Uint, b: Uint)
    requires |a| == |b|
    ensures Times(Val(b), Val(a)) >= Visited(a, b, |a|) >= 0
    ensures NothingSkipped(a, b) ==> Times(Val(b), Val(a)) == Visited(a, b, |a|)
    ensures !NothingSkipped(a, b) ==> Times(Val(b), Val(a)) >= Pow(2, 64 * |a|)
  {
    var n := |a|;
    ProductSplits(a, b, n);
    SkippedZero(a, b, n);
    VisitedNat(a, b, n);
    assert b[..n] == b;
    RadixBits(n);
    ScaleZero(n);
    ScaleMono(0, Skipped(a, b, n), n);
    ScaleMono(1, Skipped(a, b, n), n);
  }

  /** A product overflows exactly when its visited part does or a skipped limb product is not zero. */
  lemma {:induction false} OverflowIff(a: Uint, b: Uint)
    requires |a| == |b|
    ensures Times(Val(b), Val(a)) >= Pow(2, 64 * |a|) <==> Visited(a, b, |a|) >= Pow(2, 64 * |a|) || !NothingSkipped(a, b)
  {
    OverflowParts(a, b);
  }

  lemma {:induction false} VisitedNat(a: Uint, b: Uint, j: nat)
    requires j <= |b| == |a|
    ensures Visited(a, b, j) >= 0
  {
    if j > 0 {
      VisitedNat(a, b, j - 1);
      ScaleZero(j - 1);
      ScaleMono(0, Fitting(a, b[j - 1], j - 1), j - 1);
    }
  }

  /** The flag tells overflow exactly when it is raised or no limb product was skipped. */
  lemma {:induction false} FlagIsExactIff(a: Uint, b: Uint)
    requires |a| == |b|
    ensures (Visited(a, b, |a|) >= Pow(2, 64 * |a|) <==> Times(Val(b), Val(a)) >= Pow(2, 64 * |a|))
            <==> (Visited(a, b, |a|) >= Pow(2, 64 * |a|) || NothingSkipped(a, b))
  {
    OverflowParts(a, b);
  }

  /** Two limbs are enough for the flag to miss an overflow. */
  lemma FlagMissesOverflow()
    ensures Times(Val([0, 1]), Val([0, 1])) >= Pow(2, 128)
    ensures Visited([0, 1], [0, 1], 2) < Pow(2, 128)
  {
    var a: Uint := [0, 1];
    assert a[..1] == [0] && a[..2] == a && a[..0] == [];
    assert Val(a) == B;
    assert Visited(a, a, 1) == 0;
    assert Visited(a, a, 2) == 0;
    PowWord();
    PowAdd(2, 64, 64);
    TimesIs(B, B);
  }
}
