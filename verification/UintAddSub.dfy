/** Addition and subtraction with carry, limb by limb. */
module UintAddSub {
  import opened Arith
  import opened Limbs
  import opened Words

  function AsInt(b: bool): int { if b then 1 else 0 }

  method OverflowingAddWord(x: u64, y: u64) returns (r: u64, overflow: bool)
    ensures r + AsInt(overflow) * B == x + y
  {
    r, overflow := (x + y) % B, x + y >= B;
  }

  method OverflowingSubWord(x: u64, y: u64) returns (r: u64, overflow: bool)
    ensures r == x - y + AsInt(overflow) * B
  {
    r, overflow := (x - y) % B, x < y;
  }

  /** Two wrapping additions; at most one of them overflows, so "differs" is "either". */
  method CarryingAddWord(lhs: u64, rhs: u64, carry: bool) returns (r: u64, carryOut: bool)
    ensures r + AsInt(carryOut) * B == lhs + rhs + AsInt(carry)
  {
    var a, b := OverflowingAddWord(lhs, rhs);
    var c, d := OverflowingAddWord(a, AsInt(carry));
    r, carryOut := c, b != d;
  }

  method BorrowingSubWord(lhs: u64, rhs: u64, borrow: bool) returns (r: u64, borrowOut: bool)
    ensures r == lhs - rhs - AsInt(borrow) + AsInt(borrowOut) * B
  {
    var a, b := OverflowingSubWord(lhs, rhs);
    var c, d := OverflowingSubWord(a, AsInt(borrow));
    r, borrowOut := c, b != d;
  }

  /** One column of the carry chain. A difference column is the same equation read backwards. */
  lemma CarryColumn(x: int, y: int, z: int, was: int, now: int, i: nat)
    requires x + now * B == y + z + was
    ensures Scale(x, i) + Scale(now, i + 1) == Scale(y, i) + Scale(z, i) + Scale(was, i)
  {
    ScaleAdd(x, now * B, i);
    ScaleUp(now, i);
    ScaleAdd(y, z, i);
    ScaleAdd(y + z, was, i);
  }

  lemma AddStep(a: Uint, b: Uint, i: nat, done: Uint, x: u64, was: int, now: int)
    requires i < |a| == |b| && |done| == i && x + now * B == a[i] + b[i] + was
    requires Val(done) + Scale(was, i) == Val(a[..i]) + Val(b[..i])
    ensures Val(done + [x]) + Scale(now, i + 1) == Val(a[..i + 1]) + Val(b[..i + 1])
  {
    CarryColumn(x, a[i], b[i], was, now, i);
    ValSnoc(done, x);
    ValTake(a, i);
    ValTake(b, i);
  }

  lemma SubStep(a: Uint, b: Uint, i: nat, done: Uint, x: u64, was: int, now: int)
    requires i < |a| == |b| && |done| == i && a[i] + now * B == x + b[i] + was
    requires Val(done) + Val(b[..i]) == Val(a[..i]) + Scale(was, i)
    ensures Val(done + [x]) + Val(b[..i + 1]) == Val(a[..i + 1]) + Scale(now, i + 1)
  {
    CarryColumn(a[i], x, b[i], was, now, i);
    ValSnoc(done, x);
    ValTake(a, i);
    ValTake(b, i);
  }

  method OverflowingAdd(a: Uint, b: Uint) returns (r: Uint, carry: bool)
    requires |a| == |b|
    ensures |r| == |a|
    ensures Val(r) == (Val(a) + Val(b)) % Pow(2, 64 * |a|)
    ensures carry <==> Val(a) + Val(b) >= Pow(2, 64 * |a|)
  {
    r, carry := AddLimbs(a, b);
    AddWraps(a, b, r, carry);
  }

  /** The carry chain: no carry is lost before the top. */
  method AddLimbs(a: Uint, b: Uint) returns (r: Uint, carry: bool)
    requires |a| == |b|
    ensures |r| == |a| && Val(r) + Scale(AsInt(carry), |a|) == Val(a) + Val(b)
  {
    var limbs := new u64[|a|](i requires 0 <= i < |a| => a[i]);
    carry := false;
    ghost var done: Uint := [];
    for i := 0 to |a|
      invariant done == limbs[..i] && forall k :: i <= k < |a| ==> limbs[k] == a[k]
      invariant Val(done) + Scale(AsInt(carry), i) == Val(a[..i]) + Val(b[..i])
    {
      var x, c := CarryingAddWord(limbs[i], b[i], carry);
      assert limbs[i] == a[i];
      AddStep(a, b, i, done, x, AsInt(carry), AsInt(c));
      limbs[i] := x;
      carry := c;
      done := done + [x];
    }
    r := limbs[..];
    assert r == done && a[..|a|] == a && b[..|a|] == b;
  }

  lemma {:induction false} AddWraps(a: Uint, b: Uint, r: Uint, carry: bool)
    requires |r| == |a| == |b| && Val(r) + Scale(AsInt(carry), |a|) == Val(a) + Val(b)
    ensures Val(r) == (Val(a) + Val(b)) % Pow(2, 64 * |a|)
    ensures carry <==> Val(a) + Val(b) >= Pow(2, 64 * |a|)
  {
    ValBound(r);
    RadixBits(|a|);
    ScaleZero(|a|);
    Wraps(Val(a) + Val(b), AsInt(carry), Val(r), |a|);
  }

  method OverflowingSub(a: Uint, b: Uint) returns (r: Uint, borrow: bool)
    requires |a| == |b|
    ensures |r| == |a|
    ensures Val(r) == (Val(a) - Val(b)) % Pow(2, 64 * |a|)
    ensures borrow <==> Val(a) < Val(b)
    ensures !borrow ==> Val(r) == Val(a) - Val(b)
  {
    r, borrow := SubLimbs(a, b);
    SubWraps(a, b, r, borrow);
  }

  method SubLimbs(a: Uint, b: Uint) returns (r: Uint, borrow: bool)
    requires |a| == |b|
    ensures |r| == |a| && Val(r) + Val(b) == Val(a) + Scale(AsInt(borrow), |a|)
  {
    var limbs := new u64[|a|](i requires 0 <= i < |a| => a[i]);
    borrow := false;
    ghost var done: Uint := [];
    for i := 0 to |a|
      invariant done == limbs[..i] && forall k :: i <= k < |a| ==> limbs[k] == a[k]
      invariant Val(done) + Val(b[..i]) == Val(a[..i]) + Scale(AsInt(borrow), i)
    {
      var x, c := BorrowingSubWord(limbs[i], b[i], borrow);
      assert limbs[i] == a[i];
      SubStep(a, b, i, done, x, AsInt(borrow), AsInt(c));
      limbs[i] := x;
      borrow := c;
      done := done + [x];
    }
    r := limbs[..];
    assert r == done && a[..|a|] == a && b[..|a|] == b;
  }

  lemma {:induction false} SubWraps(a: Uint, b: Uint, r: Uint, borrow: bool)
    requires |r| == |a| == |b| && Val(r) + Val(b) == Val(a) + Scale(AsInt(borrow), |a|)
    ensures Val(r) == (Val(a) - Val(b)) % Pow(2, 64 * |a|)
    ensures borrow <==> Val(a) < Val(b)
    ensures !borrow ==> Val(r) == Val(a) - Val(b)
  {
    var n := |a|;
    ValBound(r);
    ValBound(a);
    ScaleZero(n);
    ScaleAdd(AsInt(borrow), -AsInt(borrow), n);
    Wraps(Val(a) - Val(b), -AsInt(borrow), Val(r), n);
  }
}
