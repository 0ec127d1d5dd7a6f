/** Little-endian arrays of 64-bit limbs and the natural number they denote. */
module Limbs {
  import opened Arith
  import opened Words

  const B: nat := 0x1_0000_0000_0000_0000

  /** A fixed-width integer: the limb array of the types built by construct_uint. */
  type Uint = seq<u64>

  datatype Ordering = Less | Equal | Greater

  /** x moved up by k limbs. */
  function Scale(x: int, k: nat): int
  {
    if k == 0 then x else B * Scale(x, k - 1)
  }

  lemma {:induction false} ScaleIs(x: int, k: nat)
    ensures Scale(x, k) == x * Pow(B, k)
  {
    if k > 0 {
      ScaleIs(x, k - 1);
      MulAssoc(x, B, Pow(B, k - 1));
      MulAssoc(B, x, Pow(B, k - 1));
    }
  }

  lemma {:induction false} ScaleAdd(x: int, y: int, k: nat)
    ensures Scale(x + y, k) == Scale(x, k) + Scale(y, k)
  {
    if k > 0 { ScaleAdd(x, y, k - 1); }
  }

  lemma {:induction false} ScaleUp(x: int, k: nat)
    ensures Scale(x * B, k) == Scale(x, k + 1)
  {
    if k > 0 { ScaleUp(x, k - 1); }
  }

  lemma {:induction false} ScaleScale(x: int, j: nat, k: nat)
    ensures Scale(Scale(x, j), k) == Scale(x, j + k)
  {
    if k > 0 { ScaleScale(x, j, k - 1); }
  }

  lemma ScaleTimes(x: int, y: nat, k: nat)
    ensures Scale(Times(x, y), k) == Times(Scale(x, k), y)
  {
    TimesIs(x, y);
    ScaleIs(x * y, k);
    ScaleIs(x, k);
    TimesIs(Scale(x, k), y);
    ThreeFactors(x, y, Pow(B, k));
  }

  lemma {:induction false} ScaleMono(x: int, y: int, k: nat)
    ensures x <= y <==> Scale(x, k) <= Scale(y, k)
  {
    if k > 0 { ScaleMono(x, y, k - 1); }
  }

  lemma {:induction false} ScaleZero(k: nat)
    ensures Scale(0, k) == 0
  {
    if k > 0 { ScaleZero(k - 1); }
  }

  lemma {:induction false} ScaleOne(k: nat)
    ensures Scale(1, k) == Pow(B, k)
  {
    if k > 0 { ScaleOne(k - 1); }
  }

  /** The number denoted by the limbs, least significant first. */
  function Val(a: Uint): nat
  {
    if |a| == 0 then 0
    else
      ScaleZero(|a| - 1);
      ScaleMono(0, a[|a| - 1], |a| - 1);
      Val(a[..|a| - 1]) + Scale(a[|a| - 1], |a| - 1)
  }

  lemma RadixBits(n: nat)
    ensures Scale(1, n) == Pow(B, n) == Pow(2, 64 * n)
  {
    PowWord();
    PowPower(2, 64, n);
    ScaleOne(n);
  }

  /** Appending a limb at the top. */
  lemma ValSnoc(a: Uint, x: u64)
    ensures Val(a + [x]) == Val(a) + Scale(x, |a|)
  {
    assert (a + [x])[..|a|] == a;
  }

  lemma ValTake(a: Uint, i: nat)
    requires i < |a|
    ensures Val(a[..i + 1]) == Val(a[..i]) + Scale(a[i], i)
  {
    assert a[..i + 1][..i] == a[..i];
  }

  lemma {:induction false} ValBound(a: Uint)
    ensures Val(a) < Scale(1, |a|)
  {
    if |a| > 0 {
      var k := |a| - 1;
      ValBound(a[..k]);
      ScaleMono(a[k], B - 1, k);
      ScaleAdd(B - 1, 1, k);
      ScaleUp(1, k);
    }
  }

  /** A value below the width plus a multiple of it: the value is the wrapped result. */
  lemma {:induction false} Wraps(v: int, q: int, r: int, n: nat)
    requires 0 <= r < Scale(1, n)
    requires v == r + Scale(q, n)
    ensures r == v % Pow(2, 64 * n)
    ensures q == v / Pow(2, 64 * n)
  {
    RadixBits(n);
    ScaleIs(q, n);
    DivUnique(v, Pow(2, 64 * n), q, r);
  }

  /** Splitting the limbs at k splits the value at the k-th power of the radix. */
  lemma {:induction false} ValSplit(a: Uint, k: nat)
    requires k <= |a|
    ensures Val(a) == Val(a[..k]) + Scale(Val(a[k..]), k)
    decreases |a|
  {
    if k == |a| {
      assert a[..k] == a && a[k..] == [];
      ScaleZero(k);
    } else {
      var m := |a| - 1;
      ValSplit(a[..m], k);
      assert a[..m][..k] == a[..k];
      assert a[k..][..m - k] == a[..m][k..];
      ScaleScale(a[m], m - k, k);
      ScaleAdd(Val(a[..m][k..]), Scale(a[m], m - k), k);
    }
  }

  /** Peeling off the lowest limb. */
  lemma ValCons(a: Uint, i: nat)
    requires i < |a|
    ensures Val(a[i..]) == a[i] + Val(a[i + 1..]) * B
  {
    ValSplit(a[i..], 1);
    assert a[i..][..1] == [] + [a[i]] && a[i..][1..] == a[i + 1..];
    ValSnoc([], a[i]);
  }

  /** Extending the multiplicand by one limb. */
  lemma RowGrows(a: Uint, i: nat, y: nat, j: nat)
    requires i < |a|
    ensures Scale(Times(Val(a[..i + 1]), y), j)
            == Scale(Times(Val(a[..i]), y), j) + Scale(Times(a[i], y), i + j)
  {
    ValTake(a, i);
    TimesAdd(Val(a[..i]), Scale(a[i], i), y);
    ScaleTimes(a[i], y, i);
    ScaleAdd(Times(Val(a[..i]), y), Scale(Times(a[i], y), i), j);
    ScaleScale(Times(a[i], y), i, j);
  }

  /** Splitting the multiplicand of a shifted multiple. */
  lemma RowSplits(a: Uint, y: nat, k: nat)
    requires k <= |a|
    ensures Scale(Times(Val(a), y), k)
            == Scale(Times(Val(a[..|a| - k]), y), k) + Scale(Times(Val(a[|a| - k..]), y), |a|)
  {
    var m := |a| - k;
    var lo, hi := Val(a[..m]), Val(a[m..]);
    ValSplit(a, m);
    TimesAdd(lo, Scale(hi, m), y);
    ScaleTimes(hi, y, m);
    ScaleAdd(Times(lo, y), Scale(Times(hi, y), m), k);
    ScaleScale(Times(hi, y), m, k);
  }

  lemma ScaleByPower(x: nat, n: nat)
    ensures Scale(x, n) == Times(Pow(2, 64 * n), x)
  {
    RadixBits(n);
    ScaleIs(x, n);
    TimesIs(Pow(2, 64 * n), x);
  }

  lemma {:induction false} ValZeros(a: Uint)
    ensures Val(a) == 0 <==> forall i :: 0 <= i < |a| ==> a[i] == 0
  {
    if |a| > 0 {
      var k := |a| - 1;
      ValZeros(a[..k]);
      ScaleZero(k);
      ScaleMono(a[k], 0, k);
    }
  }

  lemma {:induction false} ValUpdate(a: Uint, k: nat, x: u64)
    requires k < |a|
    ensures Val(a[k := x]) == Val(a) - Scale(a[k], k) + Scale(x, k)
  {
    var m := |a| - 1;
    if k == m {
      assert a[k := x][..m] == a[..m];
    } else {
      ValUpdate(a[..m], k, x);
      assert a[k := x][..m] == a[..m][k := x];
    }
  }

  /** Limb-wise comparison from the most significant end. */
  function Cmp(a: Uint, b: Uint): Ordering
    requires |a| == |b|
  {
    if |a| == 0 then Equal
    else
      var k := |a| - 1;
      if a[k] < b[k] then Less
      else if a[k] > b[k] then Greater
      else Cmp(a[..k], b[..k])
  }

  lemma HighLimbDecides(a: Uint, b: Uint)
    requires |a| == |b| > 0
    requires a[|a| - 1] < b[|a| - 1]
    ensures Val(a) < Val(b)
  {
    var k := |a| - 1;
    var x: int := a[k];
    ValBound(a[..k]);
    ScaleAdd(x, 1, k);
    ScaleMono(x + 1, b[k], k);
  }

  /** Comparison is the order of the denoted numbers, and equal numbers have equal limbs. */
  lemma {:induction false} CmpIsNumeric(a: Uint, b: Uint)
    requires |a| == |b|
    ensures Cmp(a, b) == (if Val(a) < Val(b) then Less else if Val(a) == Val(b) then Equal else Greater)
    ensures Val(a) == Val(b) ==> a == b
  {
    if |a| > 0 {
      var k := |a| - 1;
      if a[k] < b[k] {
        HighLimbDecides(a, b);
      } else if a[k] > b[k] {
        HighLimbDecides(b, a);
      } else {
        CmpIsNumeric(a[..k], b[..k]);
        assert a == a[..k] + [a[k]] && b == b[..k] + [b[k]];
      }
    }
  }

  predicate IsZero(a: Uint)
  {
    forall i :: 0 <= i < |a| ==> a[i] == 0
  }

  function LeadingZerosWord(x: u64): (n: int)
    ensures n == 64 - BitLen(x)
    ensures 0 <= n <= 64
  {
    PowWord();
    BitLenBounds(x);
    if x > 0 then PowLess(2, BitLen(x) - 1, 64); 64 - BitLen(x) else 64
  }

  /** Bits: the least number of bits that represent the number. */
  method Bits(a: Uint) returns (n: nat)
    ensures n == BitLen(Val(a))
    ensures n <= 64 * |a|
  {
    var i := |a|;
    assert a[..i] == a;
    while i > 0
      invariant 0 <= i <= |a|
      invariant Val(a) == Val(a[..i])
    {
      i := i - 1;
      ValTake(a, i);
      ScaleZero(i);
      if a[i] != 0 {
        BitsOfTopLimb(a, i);
        return 64 * (i + 1) - LeadingZerosWord(a[i]);
      }
    }
    return 0;
  }

  lemma BitsOfTopLimb(a: Uint, i: nat)
    requires i < |a| && a[i] != 0
    ensures BitLen(Val(a[..i + 1])) == 64 * i + BitLen(a[i]) <= 64 * (i + 1)
  {
    ValTake(a, i);
    ValBound(a[..i]);
    RadixBits(i);
    ScaleIs(a[i], i);
    BitLenShifted(a[i], 64 * i, Val(a[..i]));
    assert LeadingZerosWord(a[i]) == 64 - BitLen(a[i]);
  }
}
