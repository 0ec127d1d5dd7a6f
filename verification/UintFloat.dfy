/** Conversion to a double: which bit pattern is the correctly rounded one, and when as_f64 yields it. */
module UintFloat {
  import opened Arith
  import opened Limbs
  import opened Words
  import opened Outcomes
  import opened UintShift

  /** 2^52, the number of fractions per exponent of the binary64 format of IEEE 754. */
  const FRACTIONS: nat := 0x10_0000_0000_0000

  /** The pattern of positive infinity: exponent field 2047, fraction 0. */
  const INFINITY: nat := 2047 * FRACTIONS

  /** The least positive double is 2^-1074; all finite doubles are multiples of it. */
  const LEAST_EXPONENT: nat := 1074

  /** The value of the non-negative pattern p in units of 2^-1074; infinity stands where 2^1024 would. */
  ghost function Scaled(p: nat): nat
  {
    if p < FRACTIONS then p else Times(FRACTIONS + p % FRACTIONS, Pow(2, p / FRACTIONS - 1))
  }

  ghost function Distance(x: nat, p: nat): nat
  {
    if Scaled(p) <= x then x - Scaled(p) else Scaled(p) - x
  }

  /**
   * Round to nearest, ties to even, for a value x in units of 2^-1074 (section 4.3.1 of IEEE 754-2008):
   * no pattern is nearer, and on a tie the chosen one is even.
   */
  ghost predicate RoundsTo(x: nat, p: nat)
  {
    p <= INFINITY &&
    forall q: nat :: q <= INFINITY && q != p ==>
      Distance(x, p) < Distance(x, q) || (Distance(x, p) == Distance(x, q) && p % 2 == 0)
  }

  /** The integer v in units of 2^-1074; moving up by 1074 bits is moving up by 16 limbs and 50 bits. */
  ghost function Units(v: nat): (x: nat)
  {
    ScaleZero(16);
    ScaleMono(0, Times(v, 0x4_0000_0000_0000), 16);
    Scale(Times(v, 0x4_0000_0000_0000), 16)
  }

  lemma UnitsIs(v: nat)
    ensures Units(v) == Times(v, Pow(2, LEAST_EXPONENT))
  {
    UnitsAt(v, 16, 50);
  }

  lemma UnitsAt(v: nat, w: nat, b: nat)
    requires b == 50
    ensures Scale(Times(v, 0x4_0000_0000_0000), w) == Times(v, Pow(2, 64 * w + b))
  {
    assert Pow(2, 10) == 1024;
    PowAdd(2, 10, 40);
    PowAdd(2, 20, 20);
    PowAdd(2, 10, 10);
    ScaleBits(v, w, b);
  }

  /** The pattern is the double nearest to the integer v. */
  ghost predicate Correct(v: nat, p: nat)
  {
    RoundsTo(Units(v), p)
  }

  /** The pattern of the double 1.0 stands for one. */
  lemma PatternOfOne()
    ensures Scaled(0x3FF0_0000_0000_0000) == Units(1)
  {
    PatternParts(1, FRACTIONS);
    UnitsIs(1);
    TimesIs(1, Pow(2, LEAST_EXPONENT));
    FractionsArePower();
    TimesIs(FRACTIONS, Pow(2, 1022));
    PowAdd(2, 52, 1022);
  }

  /** The gap above pattern p. */
  ghost function Ulp(p: nat): nat
  {
    if p < FRACTIONS then 1 else Pow(2, p / FRACTIONS - 1)
  }

  /** Adding one to a pattern adds one ulp, also where the fraction carries into the exponent. */
  lemma ScaledNext(p: nat)
    ensures Scaled(p + 1) == Scaled(p) + Ulp(p)
  {
    var e, f := p / FRACTIONS, p % FRACTIONS;
    if p + 1 == FRACTIONS {
      TimesIs(FRACTIONS, 1);
    } else if p >= FRACTIONS {
      var u := Pow(2, e - 1);
      TimesIs(FRACTIONS + f, u);
      if f + 1 < FRACTIONS {
        assert (p + 1) / FRACTIONS == e && (p + 1) % FRACTIONS == f + 1;
        TimesIs(FRACTIONS + f + 1, u);
      } else {
        assert (p + 1) / FRACTIONS == e + 1 && (p + 1) % FRACTIONS == 0;
        TimesIs(FRACTIONS, 2 * u);
      }
    }
  }

  lemma {:induction false} ScaledMono(p: nat, q: nat)
    requires p < q
    ensures Scaled(p) < Scaled(q)
    decreases q
  {
    ScaledNext(q - 1);
    if p < q - 1 { ScaledMono(p, q - 1); }
  }

  /** The candidate of two neighbouring patterns around x that the rounding rule picks. */
  ghost predicate PicksNeighbour(x: nat, p: nat, up: bool)
  {
    var below, gap := x - Scaled(p), Ulp(p);
    up <==> 2 * below > gap || (2 * below == gap && p % 2 == 1)
  }

  lemma NeighbourIsNearest(x: nat, p: nat, up: bool)
    requires p + 1 <= INFINITY
    requires Scaled(p) <= x < Scaled(p) + Ulp(p)
    requires PicksNeighbour(x, p, up)
    ensures RoundsTo(x, if up then p + 1 else p)
  {
    var r := if up then p + 1 else p;
    ScaledNext(p);
    forall q: nat | q <= INFINITY && q != r
      ensures Distance(x, r) < Distance(x, q) || (Distance(x, r) == Distance(x, q) && r % 2 == 0)
    {
      if q < p { ScaledMono(q, p); }
      if q > p + 1 { ScaledMono(p + 1, q); }
    }
  }

  /** From 2^1024 on, only infinity is correct. */
  lemma OverflowIsInfinity(x: nat, p: nat)
    requires x >= Scaled(INFINITY)
    ensures RoundsTo(x, p) <==> p == INFINITY
  {
    forall q: nat | q < INFINITY ensures Scaled(q) < Scaled(INFINITY) { ScaledMono(q, INFINITY); }
    assert Distance(x, INFINITY) == x - Scaled(INFINITY);
  }

  /** Comparing two quantities is the same after scaling both sides by positive factors. */
  lemma SameRatio(x: int, y: int, a: int, d: int, u: int, c: int)
    requires a > 0 && c > 0
    requires x * a == d * c && y * a == u * c
    ensures x < y <==> d < u
    ensures x == y <==> d == u
  {
    if x < y { MulLess(x, y, a); if d >= u { MulLe(u, d, c); } }
    if x == y && d != u { if d < u { MulLess(d, u, c); } else { MulLess(u, d, c); } }
    if x > y { MulLess(y, x, a); if d <= u { MulLe(d, u, c); } }
  }

  /** The pattern built from the exponent of a k-bit number and a 53-bit mantissa. */
  function Pattern(k: nat, m: nat): nat { Joined(k + 1021, m) }

  /** An exponent field above a 52-bit fraction; a mantissa's top bit carries into the exponent. */
  function Joined(exponent: nat, m: nat): nat { 0x10_0000_0000_0000 * exponent + m }

  lemma PatternParts(k: nat, m: nat)
    requires FRACTIONS <= m < 2 * FRACTIONS
    ensures Scaled(Pattern(k, m)) == Times(m, Pow(2, k + 1021))
    ensures Ulp(Pattern(k, m)) == Pow(2, k + 1021)
  {
    var p := Pattern(k, m);
    assert p == (k + 1022) * FRACTIONS + (m - FRACTIONS);
    DivUnique(p, FRACTIONS, k + 1022, m - FRACTIONS);
  }

  lemma PatternParity(k: nat, m: nat)
    ensures Pattern(k, m) % 2 == m % 2
  {
    assert Pattern(k, m) == 2 * ((k + 1021) * 0x8_0000_0000_0000) + m;
  }

  /**
   * A k-bit number v, left-aligned in width bits, with mantissa m and dropped part d in gaps of u:
   * m's pattern and the next one enclose v, and v lies between them as d lies between 0 and u.
   */
  lemma Enclosed(v: nat, k: nat, width: nat, m: nat, d: nat)
    requires 0 < k <= width && 53 <= width
    requires FRACTIONS <= m < 2 * FRACTIONS && d < Pow(2, width - 53)
    requires Times(v, Pow(2, width - k)) == Times(m, Pow(2, width - 53)) + d
    ensures var x, p := Times(v, Pow(2, LEAST_EXPONENT)), Pattern(k, m);
            && Scaled(p) <= x < Scaled(p) + Ulp(p)
            && (2 * (x - Scaled(p)) > Ulp(p) <==> 2 * d > Pow(2, width - 53))
            && (2 * (x - Scaled(p)) == Ulp(p) <==> 2 * d == Pow(2, width - 53))
  {
    var a, u, c, g := Pow(2, width - k), Pow(2, width - 53), Pow(2, LEAST_EXPONENT), Pow(2, k + 1021);
    PatternParts(k, m);
    TimesIs(v, c);
    TimesIs(v, a);
    TimesIs(m, u);
    TimesIs(m, g);
    CrossPowers(k + 1021, width - k, width - 53, LEAST_EXPONENT);
    SameRatios(v, m, d, a, u, c, g);
  }

  lemma {:induction false} CrossPowers(a: nat, b: nat, c: nat, d: nat)
    requires a + b == c + d
    ensures Pow(2, a) * Pow(2, b) == Pow(2, c) * Pow(2, d)
  {
    PowAdd(2, a, b);
    PowAdd(2, c, d);
  }

  /** The dropped part d is to the gap u as what the pattern misses of the value is to its ulp g. */
  lemma SameRatios(v: int, m: int, d: int, a: int, u: int, c: int, g: int)
    requires v * a == m * u + d && g * a == u * c && a > 0 && c > 0 && 0 <= d < u
    ensures 0 <= v * c - m * g < g
    ensures 2 * (v * c - m * g) > g <==> 2 * d > u
    ensures 2 * (v * c - m * g) == g <==> 2 * d == u
  {
    var y := v * c - m * g;
    EnclosedProduct(v, m, d, a, u, c, g);
    SameRatio(y, g, a, d, u, c);
    SameRatio(0, y, a, 0, d, c);
    SameRatio(g, 2 * y, a, u, 2 * d, c);
  }

  lemma EnclosedProduct(v: int, m: int, d: int, a: int, u: int, c: int, g: int)
    requires v * a == m * u + d && g * a == u * c
    ensures (v * c - m * g) * a == d * c
    ensures (2 * (v * c - m * g)) * a == (2 * d) * c
  {
    assert (v * c) * a == (v * a) * c;
    assert (m * g) * a == m * (u * c) == (m * u) * c;
    Distribute(v * a, m * u, d, c);
    assert (v * c - m * g) * a == (v * c) * a - (m * g) * a;
  }

  /** The 53 leading bits of the aligned number, and whether the dropped bits round them up. */
  ghost predicate MantissaOf(aligned: nat, width: nat, m: nat, up: bool)
    requires 53 <= width
  {
    exists d: nat :: Dropped(aligned, width, m, d) && RoundsUp(m, d, width, up)
  }

  ghost predicate Dropped(aligned: nat, width: nat, m: nat, d: nat)
    requires 53 <= width
  {
    d < Pow(2, width - 53) && aligned == Times(m, Pow(2, width - 53)) + d
  }

  ghost predicate RoundsUp(m: nat, d: nat, width: nat, up: bool)
    requires 53 <= width
  {
    up <==> 2 * d > Pow(2, width - 53) || (2 * d == Pow(2, width - 53) && m % 2 == 1)
  }

  method SplitMantissa(left: Uint) returns (mantissa: u64, up: bool)
    requires |left| > 0
    ensures mantissa == left[|left| - 1] / 2048
    ensures MantissaOf(Val(left), 64 * |left|, mantissa, up)
  {
    var n := |left|;
    var highestDroppedBit, firstRest;
    mantissa, highestDroppedBit, firstRest := SplitTopWord(left[n - 1]);
    var restDroppedBits := OrAll(firstRest, left[..n - 1]);
    ValZeros(left[..n - 1]);
    var higherThanHalf := highestDroppedBit && restDroppedBits != 0;
    var exactlyHalfButMantissaOdd := highestDroppedBit && restDroppedBits == 0 && mantissa % 2 == 1;
    up := higherThanHalf || exactlyHalfButMantissaOdd;
    RoundingDecision(left, left[n - 1] % 2048, up);
  }

  /** The mantissa, the first dropped bit and the other dropped bits of the top limb, by word shifts. */
  method SplitTopWord(top: u64) returns (mantissa: u64, highestDroppedBit: bool, rest: u64)
    ensures mantissa == top / 2048
    ensures highestDroppedBit <==> top % 2048 >= 1024
    ensures rest == 0 <==> top % 2048 % 1024 == 0
  {
    mantissa := ShrWord(top, 11);
    var highestDroppedBits := ShlWord(top, 53);
    highestDroppedBit := ShrWord(highestDroppedBits, 63) != 0;
    rest := ShlWord(highestDroppedBits, 1);
    assert Pow(2, 11) == 2048;
    ShrWordIs(top, 11);
    TopBits(top);
  }

  lemma TopBits(top: u64)
    ensures ShrWord(ShlWord(top, 53), 63) != 0 <==> top % 2048 >= 1024
    ensures ShlWord(ShlWord(top, 53), 1) == 0 <==> top % 2048 % 1024 == 0
  {
    PowLiterals();
    ShlWordIs(top, 53);
    SplitByProduct(top, 2048, 0x20_0000_0000_0000);
    ShrWordIs(ShlWord(top, 53), 63);
    DroppedBits(top % 2048, ShlWord(top, 53));
  }

  lemma DroppedBits(t: nat, h: u64)
    requires t < 2048 && h == t * 0x20_0000_0000_0000
    ensures h / 0x8000_0000_0000_0000 != 0 <==> t >= 1024
    ensures ShlWord(h, 1) == 0 <==> t % 1024 == 0
  {
    SplitByProduct(t, 1024, 0x20_0000_0000_0000);
    SplitByProduct(t, 1024, 0x40_0000_0000_0000);
    assert ShlWord(h, 1) == 2 * h % B;
  }

  lemma PowLiterals()
    ensures Pow(2, 53) == 0x20_0000_0000_0000
    ensures Pow(2, 63) == 0x8000_0000_0000_0000
  {
    PowWord();
    assert Pow(2, 11) == 2048;
    PowAdd(2, 11, 53);
    PowAdd(2, 1, 63);
  }

  method OrAll(first: u64, words: Uint) returns (r: u64)
    ensures r == 0 <==> first == 0 && forall j :: 0 <= j < |words| ==> words[j] == 0
  {
    r := first;
    for i := 0 to |words|
      invariant r == 0 <==> first == 0 && forall j :: 0 <= j < i ==> words[j] == 0
    {
      PowWord();
      BitOrFits(r, words[i], 64);
      BitOrZero(r, words[i]);
      r := BitOr(r, words[i]);
    }
  }

  lemma {:induction false} BitOrFits(x: nat, y: nat, k: nat)
    requires x < Pow(2, k) && y < Pow(2, k)
    ensures BitOr(x, y) < Pow(2, k)
  {
    if x != 0 && y != 0 { BitOrFits(x / 2, y / 2, k - 1); }
  }

  lemma RoundingDecision(left: Uint, t: nat, up: bool)
    requires |left| > 0 && t == left[|left| - 1] % 2048
    requires up <==> t >= 1024 && (t % 1024 != 0 || Val(left[..|left| - 1]) != 0
                                   || left[|left| - 1] / 2048 % 2 == 1)
    ensures MantissaOf(Val(left), 64 * |left|, left[|left| - 1] / 2048, up)
  {
    var k := |left| - 1;
    var m, d := left[k] / 2048, Scale(t, k) + Val(left[..k]);
    ValBound(left[..k]);
    GapIs(k);
    DroppedVersusHalf(t, Val(left[..k]), k);
    TopLimbSplits(m, t, k);
    assert Dropped(Val(left), 64 * |left|, m, d);
    assert RoundsUp(m, d, 64 * |left|, up);
  }

  lemma TopLimbSplits(m: nat, t: nat, k: nat)
    ensures Scale(2048, k) >= 0
    ensures Scale(m * 2048 + t, k) == Times(m, Scale(2048, k)) + Scale(t, k)
    ensures Scale(t, k) >= 0
  {
    GapIs(k);
    ScaleAdd(m * 2048, t, k);
    ScaleTimes(2048, m, k);
    TimesIs(2048, m);
    TimesSwap(Scale(2048, k), m);
    ScaleZero(k);
    ScaleMono(0, t, k);
  }

  lemma GapIs(k: nat)
    ensures Scale(2048, k) == Pow(2, 64 * (k + 1) - 53)
  {
    assert Pow(2, 11) == 2048;
    ScaleBits(1, k, 11);
    TimesIs(1, 2048);
    TimesIs(1, Pow(2, 64 * k + 11));
  }

  /** Dropped bits against half a gap, limb-wise. */
  lemma DroppedVersusHalf(t: nat, low: nat, k: nat)
    requires t < 2048 && low < Scale(1, k)
    ensures Scale(t, k) + low < Scale(2048, k)
    ensures 2 * (Scale(t, k) + low) > Scale(2048, k) <==> t > 1024 || (t == 1024 && low > 0)
    ensures 2 * (Scale(t, k) + low) == Scale(2048, k) <==> t == 1024 && low == 0
  {
    ScaleAdd(t, 1, k);
    ScaleAdd(1024, 1024, k);
    ScaleAdd(1024, 1, k);
    ScaleMono(t + 1, 2048, k);
    ScaleMono(t + 1, 1024, k);
    ScaleMono(1025, t, k);
  }

  lemma FractionsArePower()
    ensures Pow(2, 52) == FRACTIONS
    ensures Pow(2, 53) == 2 * FRACTIONS
  {
    PowLiterals();
    PowAdd(2, 1, 52);
  }

  /** An aligned number has exactly 53 mantissa bits. */
  lemma MantissaRange(v: nat, width: nat, m: nat, d: nat)
    requires 53 <= width && 0 < v && BitLen(v) <= width
    requires Dropped(Times(v, Pow(2, width - BitLen(v))), width, m, d)
    ensures FRACTIONS <= m < 2 * FRACTIONS
  {
    var k, u := BitLen(v), Pow(2, width - 53);
    BitLenBounds(v);
    TimesIs(v, Pow(2, width - k));
    TimesIs(m, u);
    AlignedBounds(v, k, width);
    TopBetween(m, d, u, FRACTIONS);
  }

  lemma AlignedBounds(v: nat, k: nat, width: nat)
    requires 0 < k <= width && 53 <= width && Pow(2, k - 1) <= v < Pow(2, k)
    ensures FRACTIONS * Pow(2, width - 53) <= v * Pow(2, width - k) < (2 * FRACTIONS) * Pow(2, width - 53)
  {
    FractionsArePower();
    CrossPowers(k, width - k, 53, width - 53);
    CrossPowers(k - 1, width - k, 52, width - 53);
    MulLess(v, Pow(2, k), Pow(2, width - k));
    MulLe(Pow(2, k - 1), v, Pow(2, width - k));
  }

  lemma TopBetween(m: int, d: int, u: int, f: int)
    requires 0 <= d < u && f * u <= m * u + d < (2 * f) * u
    ensures f <= m < 2 * f
  {
    if m >= 2 * f { MulLe(2 * f, m, u); }
    if m < f { TopDigit(d, m, f, u); }
  }

  /** Below 2^1024 the pattern is the correctly rounded one, infinity included. */
  lemma RoundedBelowOverflow(v: nat, width: nat, m: nat, d: nat, up: bool)
    requires 53 <= width && 0 < v && BitLen(v) <= width && BitLen(v) <= 1024
    requires Dropped(Times(v, Pow(2, width - BitLen(v))), width, m, d) && RoundsUp(m, d, width, up)
    ensures Correct(v, Pattern(BitLen(v), if up then m + 1 else m))
  {
    var k := BitLen(v);
    MantissaRange(v, width, m, d);
    Enclosed(v, k, width, m, d);
    PatternParity(k, m);
    UnitsIs(v);
    NeighbourIsNearest(Units(v), Pattern(k, m), up);
  }

  /** n limbs of width and half the gap there: 2^(64n) + 2^(64n - 53). */
  ghost function HalfGapAbove(n: nat): nat
    requires n > 0
  {
    ScaleZero(n - 1);
    ScaleMono(0, 2048, n - 1);
    ScaleZero(n);
    ScaleMono(0, 1, n);
    Scale(1, n) + Scale(2048, n - 1)
  }

  /** The last value that is converted correctly: 2^1024 plus half a gap. */
  ghost function LastCorrect(): nat { HalfGapAbove(16) }

  lemma LastIs()
    ensures LastCorrect() == Pow(2, 1024) + Pow(2, 971)
  {
    RadixBits(16);
    GapIs(15);
  }

  lemma {:induction false} BeyondOverflow(v: nat, width: nat, m: nat, d: nat, up: bool)
    requires 53 <= width && 1025 <= BitLen(v) <= width
    requires Dropped(Times(v, Pow(2, width - BitLen(v))), width, m, d) && RoundsUp(m, d, width, up)
    ensures Correct(v, Pattern(BitLen(v), if up then m + 1 else m))
            <==> v <= LastCorrect()
  {
    assert v > 0;
    BitLenBounds(v);
    MantissaRange(v, width, m, d);
    Beyond(v, BitLen(v), width, m, d, up);
  }

  lemma {:induction false} Beyond(v: nat, k: nat, width: nat, m: nat, d: nat, up: bool)
    requires 1025 <= k <= width && Pow(2, k - 1) <= v && FRACTIONS <= m
    requires Dropped(Times(v, Pow(2, width - k)), width, m, d) && RoundsUp(m, d, width, up)
    ensures Correct(v, Pattern(k, if up then m + 1 else m)) <==> v <= LastCorrect()
  {
    var m' := if up then m + 1 else m;
    LongIsInfinity(v, k, Pattern(k, m'));
    InfinitePattern(k, m');
    LastIffLimbs(v, k, width, m, d, up, 16);
  }

  lemma {:induction false} BelowLast(v: nat)
    requires BitLen(v) <= 1024
    ensures v <= LastCorrect()
  {
    BelowLimbs(v, 16);
  }

  lemma {:induction false} BelowLimbs(v: nat, n: nat)
    requires n > 0 && BitLen(v) <= 64 * n
    ensures v <= HalfGapAbove(n)
  {
    BitLenBounds(v);
    PowMono(2, BitLen(v), 64 * n);
    RadixBits(n);
    ScaleZero(n - 1);
    ScaleMono(0, 2048, n - 1);
  }

  lemma {:induction false} LongIsInfinity(v: nat, k: nat, p: nat)
    requires k >= 1025 && Pow(2, k - 1) <= v
    ensures Correct(v, p) <==> p == INFINITY
  {
    AboveTop(v, k, 1024, LEAST_EXPONENT);
    InfinityIs();
    UnitsIs(v);
    OverflowIsInfinity(Units(v), p);
  }

  lemma {:induction false} InfinitePattern(k: nat, m: nat)
    requires k >= 1025 && m >= FRACTIONS
    ensures Pattern(k, m) == INFINITY <==> k == 1025 && m == FRACTIONS
  {
  }

  /** Up to 2^top plus half a gap a longer number has one bit more than `top` and a mantissa rounded down to 2^52. */
  lemma {:induction false} LastIff(v: nat, k: nat, width: nat, m: nat, d: nat, up: bool, top: nat)
    requires 53 <= top < k <= width && Pow(2, k - 1) <= v && FRACTIONS <= m
    requires Dropped(Times(v, Pow(2, width - k)), width, m, d) && RoundsUp(m, d, width, up)
    ensures v <= Pow(2, top) + Pow(2, top - 53) <==> k == top + 1 && (if up then m + 1 else m) == FRACTIONS
  {
    if k == top + 1 {
      JustBeyond(v, width, m, d, top);
    } else {
      FarBeyond(v, k, top);
    }
  }

  lemma {:induction false} LastIffLimbs(v: nat, k: nat, width: nat, m: nat, d: nat, up: bool, n: nat)
    requires 0 < n && 64 * n < k <= width && Pow(2, k - 1) <= v && FRACTIONS <= m
    requires Dropped(Times(v, Pow(2, width - k)), width, m, d) && RoundsUp(m, d, width, up)
    ensures v <= HalfGapAbove(n) <==> k == 64 * n + 1 && (if up then m + 1 else m) == FRACTIONS
  {
    LastIff(v, k, width, m, d, up, 64 * n);
    RadixBits(n);
    GapIs(n - 1);
  }

  lemma AboveTop(v: nat, k: nat, top: nat, e: nat)
    requires top < k && Pow(2, k - 1) <= v
    ensures Times(v, Pow(2, e)) >= Pow(2, top) * Pow(2, e)
  {
    PowMono(2, top, k - 1);
    TimesIs(v, Pow(2, e));
    MulLe(Pow(2, top), v, Pow(2, e));
  }

  lemma FarBeyond(v: nat, k: nat, top: nat)
    requires 53 <= top && top + 1 < k && Pow(2, k - 1) <= v
    ensures v > Pow(2, top) + Pow(2, top - 53)
  {
    PowMono(2, top + 1, k - 1);
    PowLess(2, top - 53, top);
  }

  lemma InfinityIs()
    ensures Scaled(INFINITY) == Pow(2, 1024) * Pow(2, LEAST_EXPONENT)
  {
    InfinityAt(1025, LEAST_EXPONENT);
  }

  lemma InfinityAt(k: nat, e: nat)
    requires k == 1025 && e == 1074
    ensures Scaled(INFINITY) == Pow(2, k - 1) * Pow(2, e)
  {
    PatternParts(k, FRACTIONS);
    FractionsArePower();
    TimesIs(FRACTIONS, Pow(2, k + 1021));
    PowAdd(2, 52, k + 1021);
    PowAdd(2, k - 1, e);
  }

  /**
   * For numbers of one bit more than `top`: at most 2^top plus half a gap exactly when the mantissa is
   * 2^52 and is not rounded up.
   */
  lemma JustBeyond(v: nat, width: nat, m: nat, d: nat, top: nat)
    requires 53 <= top < width && FRACTIONS <= m
    requires Dropped(Times(v, Pow(2, width - (top + 1))), width, m, d)
    ensures v <= Pow(2, top) + Pow(2, top - 53) <==> m == FRACTIONS && 2 * d <= Pow(2, width - 53)
  {
    var a := Pow(2, width - (top + 1));
    TimesIs(v, a);
    TimesIs(m, Pow(2, width - 53));
    LastAligned(width, top);
    JustBeyondParts(v, m, d, a, Pow(2, width - 54), Pow(2, top) + Pow(2, top - 53));
  }

  lemma LastAligned(width: nat, top: nat)
    requires 53 <= top < width
    ensures (Pow(2, top) + Pow(2, top - 53)) * Pow(2, width - (top + 1))
            == FRACTIONS * (2 * Pow(2, width - 54)) + Pow(2, width - 54)
  {
    var a := Pow(2, width - (top + 1));
    FractionsArePower();
    PowAdd(2, top, width - (top + 1));
    PowAdd(2, top - 53, width - (top + 1));
    PowAdd(2, 52, width - 53);
    Distribute(Pow(2, top) + Pow(2, top - 53), Pow(2, top), Pow(2, top - 53), a);
  }

  lemma JustBeyondParts(v: int, m: int, d: int, a: int, h: int, last: int)
    requires v * a == m * (2 * h) + d && 0 <= d < 2 * h
    requires last * a == FRACTIONS * (2 * h) + h && 0 < a && FRACTIONS <= m
    ensures v <= last <==> m == FRACTIONS && d <= h
  {
    if v <= last {
      MulLe(v, last, a);
      if m > FRACTIONS { MulLe(FRACTIONS + 1, m, 2 * h); }
    } else {
      MulLess(last, v, a);
    }
  }

  lemma ExponentShift(e: u64)
    requires e < 4096
    ensures ShlWord(e, 52) == e * FRACTIONS
  {
    FractionsArePower();
    ShlWordIs(e, 52);
    SmallMod(e * FRACTIONS, B);
  }

  /** Rounded mantissa and exponent give the correctly rounded pattern exactly up to LastCorrect. */
  lemma FloatCorrect(v: nat, width: nat, m: nat, up: bool)
    requires 53 <= width && 0 < v && BitLen(v) <= width
    requires MantissaOf(Times(v, Pow(2, width - BitLen(v))), width, m, up)
    ensures FRACTIONS <= m < 2 * FRACTIONS
    ensures Correct(v, Pattern(BitLen(v), if up then m + 1 else m))
            <==> v <= LastCorrect()
    ensures BitLen(v) <= 1024 ==> v <= LastCorrect()
  {
    var d: nat :| Dropped(Times(v, Pow(2, width - BitLen(v))), width, m, d) && RoundsUp(m, d, width, up);
    MantissaRange(v, width, m, d);
    if BitLen(v) <= 1024 {
      RoundedBelowOverflow(v, width, m, d, up);
      BelowLast(v);
    } else {
      BeyondOverflow(v, width, m, d, up);
    }
  }

  /**
   * as_f64: the bits of the double. `exponent << 52` loses high bits and the sum panics on overflow
   * only for widths that construct_uint is never used with.
   */
  method AsF64(a: Uint) returns (out: Outcome<u64>)
    requires 0 < |a| && 64 * |a| < 0x1_0000_0000
    ensures BitLen(Val(a)) <= 1024 ==>
      out.Returned? && Correct(Val(a), out.value)
    ensures |a| <= 48 ==>
      out.Returned? && (Correct(Val(a), out.value) <==> Val(a) <= LastCorrect())
  {
    var exponent, mantissa := FloatParts(a);
    out := PackBits(exponent, mantissa);
  }

  /** Exponent field and mantissa, taken together, are the correctly rounded pattern exactly up to LastCorrect. */
  ghost predicate CorrectParts(v: nat, exponent: nat, mantissa: nat)
  {
    && mantissa <= 2 * FRACTIONS && exponent <= BitLen(v) + 1021
    && (Correct(v, Joined(exponent, mantissa)) <==> v <= LastCorrect())
    && (BitLen(v) <= 1024 ==> v <= LastCorrect())
  }

  /** The exponent field and the rounded mantissa, whose top bit carries into the exponent. */
  method FloatParts(a: Uint) returns (exponent: u64, mantissa: u64)
    requires 0 < |a| && 64 * |a| < 0x1_0000_0000
    ensures CorrectParts(Val(a), exponent, mantissa) && exponent <= 64 * |a| + 1021
  {
    var leadingZeroes, leftAligned := AlignLeft(a);
    var m, up := SplitMantissa(leftAligned);
    ValZeros(a);
    mantissa := m + if up then 1 else 0;
    exponent := if IsZero(a) then 0 else 64 * |a| + 1021 - leadingZeroes;
    PartsAreCorrect(Val(a), leftAligned, up, exponent, mantissa);
  }

  lemma {:induction false} PartsAreCorrect(v: nat, left: Uint, up: bool, exponent: nat, mantissa: nat)
    requires 0 < |left| && BitLen(v) <= 64 * |left| && mantissa == left[|left| - 1] / 2048 + if up then 1 else 0
    requires exponent == (if v == 0 then 0 else BitLen(v) + 1021) && (v == 0 ==> Val(left) == 0)
    requires v > 0 ==> Val(left) == Times(v, Pow(2, 64 * |left| - BitLen(v)))
    requires MantissaOf(Val(left), 64 * |left|, left[|left| - 1] / 2048, up)
    ensures CorrectParts(v, exponent, mantissa)
  {
    if v == 0 {
      ZeroBits(v, left, up, exponent, mantissa);
    } else {
      FloatBits(v, 64 * |left|, left[|left| - 1] / 2048, up, exponent, mantissa);
    }
  }

  lemma {:induction false} FloatBits(v: nat, width: nat, m: nat, up: bool, exponent: nat, mantissa: nat)
    requires 53 <= width && 0 < v && BitLen(v) <= width
    requires MantissaOf(Times(v, Pow(2, width - BitLen(v))), width, m, up)
    requires exponent == BitLen(v) + 1021 && mantissa == if up then m + 1 else m
    ensures CorrectParts(v, exponent, mantissa)
  {
    FloatCorrect(v, width, m, up);
  }

  method PackBits(exponent: u64, mantissa: u64) returns (out: Outcome<u64>)
    ensures exponent <= 4093 && mantissa <= 2 * FRACTIONS ==> out == Returned(Joined(exponent, mantissa))
  {
    if exponent < 4096 { ExponentShift(exponent); }
    var shifted := ShlWord(exponent, 52);
    out := if shifted + mantissa < B then Returned(shifted + mantissa) else Panicked;
  }

  lemma {:induction false} ZeroBits(v: nat, left: Uint, up: bool, exponent: nat, mantissa: nat)
    requires v == 0 && 0 < |left| && Val(left) == 0 && MantissaOf(0, 64 * |left|, left[|left| - 1] / 2048, up)
    requires exponent == 0 && mantissa == left[|left| - 1] / 2048 + if up then 1 else 0
    ensures CorrectParts(v, exponent, mantissa)
  {
    ValZeros(left);
    TimesIs(0, Pow(2, 64 * |left| - 53));
    assert !up;
    ZeroIsCorrect();
  }

  lemma ZeroIsCorrect()
    ensures Correct(0, 0)
  {
    TimesIs(0, 0x4_0000_0000_0000);
    ScaleZero(16);
    NeighbourIsNearest(0, 0, false);
  }

  /** The number shifted so that its highest bit is the highest bit of the width. */
  method AlignLeft(a: Uint) returns (leadingZeroes: nat, left: Uint)
    requires 0 < |a|
    ensures |left| == |a|
    ensures leadingZeroes == 64 * |a| - BitLen(Val(a))
    ensures Val(a) > 0 ==> Val(left) == Times(Val(a), Pow(2, 64 * |a| - BitLen(Val(a))))
    ensures Val(a) == 0 ==> Val(left) == 0
  {
    var bits := Bits(a);
    leadingZeroes := 64 * |a| - bits;
    var overflows;
    left, overflows := OverflowingShl(a, leadingZeroes);
    if Val(a) > 0 {
      AlignFits(Val(a), 64 * |a|);
      SmallMod(leadingZeroes, 64 * |a|);
    } else {
      TimesIs(0, Pow(2, leadingZeroes % (64 * |a|)));
      SmallMod(0, Pow(2, 64 * |a|));
    }
  }

  lemma AlignFits(v: nat, width: nat)
    requires 0 < v && BitLen(v) <= width
    ensures BitLen(v) > 0
    ensures Times(v, Pow(2, width - BitLen(v))) % Pow(2, width) == Times(v, Pow(2, width - BitLen(v)))
  {
    BitLenBounds(v);
    TimesIs(v, Pow(2, width - BitLen(v)));
    PowAdd(2, BitLen(v), width - BitLen(v));
    MulLess(v, Pow(2, BitLen(v)), Pow(2, width - BitLen(v)));
    SmallMod(Times(v, Pow(2, width - BitLen(v))), Pow(2, width));
  }
}
