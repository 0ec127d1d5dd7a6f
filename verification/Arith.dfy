/** Powers, bit lengths, bitwise OR and the few nonlinear facts the limb proofs rest on. */
module Arith {

  function Pow(b: nat, n: nat): (p: nat)
    ensures b > 0 ==> p > 0
  {
    if n == 0 then 1 else b * Pow(b, n - 1)
  }

  lemma {:induction false} PowAdd(b: nat, m: nat, n: nat)
    ensures Pow(b, m + n) == Pow(b, m) * Pow(b, n)
  {
    if m > 0 {
      PowAdd(b, m - 1, n);
      MulAssoc(b, Pow(b, m - 1), Pow(b, n));
    }
  }

  lemma MulAssoc(x: int, y: int, z: int)
    ensures x * (y * z) == (x * y) * z
  {
  }

  lemma Distribute(t: int, x: int, y: int, z: int)
    requires t == x + y
    ensures t * z == x * z + y * z
  {
  }

  lemma ProductChain(t: int, x: int, p: int, q: int, s: int)
    requires t == x * p && s == q * p
    ensures t * q == x * s
  {
    assert t * q == (x * p) * q == x * (q * p);
  }

  lemma ThreeFactors(x: int, y: int, z: int)
    ensures (x * y) * z == (x * z) * y
  {
  }

  lemma {:induction false} PowPower(b: nat, m: nat, n: nat)
    ensures Pow(Pow(b, m), n) == Pow(b, m * n)
  {
    if n == 0 {
      assert m * n == 0;
    } else {
      PowPower(b, m, n - 1);
      assert m * n == m + m * (n - 1);
      PowAdd(b, m, m * (n - 1));
    }
  }

  lemma {:induction false} PowMono(b: nat, m: nat, n: nat)
    requires b > 0 && m <= n
    ensures 0 < Pow(b, m) <= Pow(b, n)
    decreases n
  {
    if m < n {
      PowMono(b, m, n - 1);
      MulLe(1, b, Pow(b, n - 1));
    }
  }

  lemma PowLess(b: nat, m: nat, n: nat)
    requires b > 1
    ensures Pow(b, m) < Pow(b, n) <==> m < n
  {
    if m < n {
      PowMono(b, m + 1, n);
      MulLe(2, b, Pow(b, m));
    } else {
      PowMono(b, n, m);
    }
  }

  lemma MulLe(a: int, b: int, c: int)
    requires a <= b && 0 <= c
    ensures a * c <= b * c
  {
  }

  lemma MulLess(a: int, b: int, c: int)
    requires a < b && 0 < c
    ensures a * c < b * c
  {
  }

  /** The product as repeated addition; sums of products are then linear for the solver. */
  function Times(x: int, y: nat): (t: int)
    ensures x >= 0 ==> t >= 0
  {
    if y == 0 then 0 else x + Times(x, y - 1)
  }

  lemma {:induction false} TimesIs(x: int, y: nat)
    ensures Times(x, y) == x * y
  {
    if y > 0 { TimesIs(x, y - 1); }
  }

  lemma TimesAdd(x: int, y: int, z: nat)
    ensures Times(x + y, z) == Times(x, z) + Times(y, z)
  {
    TimesIs(x + y, z);
    TimesIs(x, z);
    TimesIs(y, z);
  }

  lemma TimesAssoc(x: int, y: nat, z: nat)
    ensures y * z >= 0 && Times(Times(x, y), z) == Times(x, y * z)
  {
    MulLe(0, y, z);
    TimesIs(x, y);
    TimesIs(Times(x, y), z);
    TimesIs(x, y * z);
    MulAssoc(x, y, z);
  }

  lemma TimesSwap(x: nat, y: nat)
    ensures Times(x, y) == Times(y, x) >= 0
  {
    TimesIs(x, y);
    TimesIs(y, x);
    MulLe(0, x, y);
  }

  /** Regrouping used when a digit sum is moved across a power. */
  lemma Regroup(m: int, x: int, p: int, q: int)
    ensures (m + x * p) * q == m * q + x * (p * q)
  {
    assert (x * p) * q == x * (p * q);
  }

  /** A smaller top digit outweighs everything below it. */
  lemma TopDigit(low: int, x: int, y: int, p: int)
    requires low < p && x < y && 0 <= p
    ensures low + x * p < y * p
  {
    MulLe(x + 1, y, p);
  }

  lemma PowWord()
    ensures Pow(2, 64) == 0x1_0000_0000_0000_0000
  {
    PowWordAt(64);
  }

  lemma PowWordAt(n: nat)
    requires n == 64
    ensures Pow(2, n) == 0x1_0000_0000_0000_0000
  {
    assert Pow(2, 4) == 16;
    var k := 4;
    PowAdd(2, k, k);
    PowAdd(2, 2 * k, 2 * k);
    PowAdd(2, 4 * k, 4 * k);
    PowAdd(2, 8 * k, 8 * k);
  }

  lemma DivMod(x: int, p: int)
    requires p > 0
    ensures x == (x / p) * p + x % p && 0 <= x % p < p
  {
  }

  /** A quotient and remainder pair is the Euclidean one. */
  lemma DivUnique(n: int, d: int, q: int, r: int)
    requires 0 <= r < d
    requires n == q * d + r
    ensures n / d == q && n % d == r
  {
    var q', r' := n / d, n % d;
    assert n == q' * d + r';
    if q' < q {
      MulLe(q' + 1, q, d);
    } else if q < q' {
      MulLe(q + 1, q', d);
    }
  }

  lemma SmallMod(x: int, m: int)
    requires 0 <= x < m
    ensures x % m == x
  {
    DivUnique(x, m, 0, x);
  }

  /** The number of bits of x without leading zeros. */
  function BitLen(x: nat): (n: nat)
  {
    if x == 0 then 0 else 1 + BitLen(x / 2)
  }

  lemma {:induction false} BitLenBounds(x: nat)
    ensures x < Pow(2, BitLen(x))
    ensures x > 0 ==> BitLen(x) > 0 && Pow(2, BitLen(x) - 1) <= x
  {
    if x > 0 { BitLenBounds(x / 2); }
  }

  lemma BitLenUnique(x: nat, n: nat)
    requires x < Pow(2, n)
    requires n > 0 ==> Pow(2, n - 1) <= x
    ensures BitLen(x) == n
  {
    BitLenBounds(x);
    if BitLen(x) < n {
      PowMono(2, BitLen(x), n - 1);
    } else if n < BitLen(x) {
      PowMono(2, n, BitLen(x) - 1);
    }
  }

  lemma BitLenShifted(x: nat, k: nat, low: nat)
    requires x > 0 && low < Pow(2, k)
    ensures BitLen(low + x * Pow(2, k)) == k + BitLen(x)
  {
    var n, p := BitLen(x), Pow(2, k);
    BitLenBounds(x);
    PowAdd(2, n, k);
    PowAdd(2, n - 1, k);
    TopDigit(low, x, Pow(2, n), p);
    MulLe(Pow(2, n - 1), x, p);
    BitLenUnique(low + x * p, k + n);
  }

  /** Bitwise OR of two naturals, bit by bit. */
  function BitOr(x: nat, y: nat): nat
  {
    if x == 0 then y
    else if y == 0 then x
    else (if x % 2 == 1 || y % 2 == 1 then 1 else 0) + 2 * BitOr(x / 2, y / 2)
  }

  lemma {:induction false} BitOrZero(x: nat, y: nat)
    ensures BitOr(x, y) == 0 <==> x == 0 && y == 0
    decreases x
  {
    if x != 0 && y != 0 { BitOrZero(x / 2, y / 2); }
  }

  /** OR of words whose bits do not overlap is their sum. */
  lemma {:induction false} BitOrDisjoint(h: nat, k: nat, y: nat)
    requires y < Pow(2, k)
    ensures BitOr(h * Pow(2, k), y) == BitOr(y, h * Pow(2, k)) == h * Pow(2, k) + y
    decreases k
  {
    var x := h * Pow(2, k);
    if x != 0 && y != 0 {
      assert k > 0;
      var p := Pow(2, k - 1);
      assert x == 2 * (h * p);
      assert x / 2 == h * p && x % 2 == 0;
      assert y / 2 < p;
      BitOrDisjoint(h, k - 1, y / 2);
    }
  }
}
