/** Numerals in an arbitrary base. */
module Digits {
  import opened Arith

  /** The number denoted by digits in the given base, most significant first. */
  function FromDigits(base: nat, ds: seq<nat>): nat
  {
    if |ds| == 0 then 0 else base * FromDigits(base, ds[..|ds| - 1]) + ds[|ds| - 1]
  }

  lemma {:induction false} DigitsConcat(base: nat, xs: seq<nat>, ys: seq<nat>)
    ensures FromDigits(base, xs + ys) == Times(FromDigits(base, xs), Pow(base, |ys|)) + FromDigits(base, ys)
  {
    if |ys| == 0 {
      assert xs + ys == xs;
      TimesIs(FromDigits(base, xs), 1);
    } else {
      var k := |ys| - 1;
      DigitsConcat(base, xs, ys[..k]);
      assert (xs + ys)[..|xs + ys| - 1] == xs + ys[..k];
      HornerStep(base, FromDigits(base, xs), Pow(base, k), Pow(base, |ys|), FromDigits(base, ys[..k]));
    }
  }

  lemma {:induction false} HornerStep(base: nat, x: nat, p: nat, q: nat, y: nat)
    requires q == base * p
    ensures base * (Times(x, p) + y) == Times(x, q) + base * y
  {
    TimesIs(x, p);
    TimesIs(x, q);
    Distribute(Times(x, p) + y, Times(x, p), y, base);
    ThreeFactors(x, p, base);
    MulAssoc(x, base, p);
  }

  lemma {:induction false} LeadingZerosVanish(base: nat, k: nat, ds: seq<nat>)
    ensures FromDigits(base, seq(k, i => 0) + ds) == FromDigits(base, ds)
  {
    DigitsConcat(base, seq(k, i => 0), ds);
    AllZeroDigits(base, k);
    TimesIs(0, Pow(base, |ds|));
  }

  lemma {:induction false} AllZeroDigits(base: nat, k: nat)
    ensures FromDigits(base, seq(k, i => 0)) == 0
  {
    if k > 0 {
      var z := seq(k, i => 0);
      assert z[..k - 1] == seq(k - 1, i => 0);
      AllZeroDigits(base, k - 1);
    }
  }

  lemma {:induction false} DigitsBound(base: nat, ds: seq<nat>)
    requires base > 0 && forall i :: 0 <= i < |ds| ==> ds[i] < base
    ensures FromDigits(base, ds) < Pow(base, |ds|)
  {
    if |ds| > 0 {
      var k := |ds| - 1;
      DigitsBound(base, ds[..k]);
      TopDigit(ds[k], FromDigits(base, ds[..k]), Pow(base, k), base);
    }
  }

  lemma {:induction false} OneDigit(base: nat, ds: seq<nat>, d: nat)
    ensures FromDigits(base, ds + [d]) == base * FromDigits(base, ds) + d
  {
    assert (ds + [d])[..|ds|] == ds;
  }

  lemma {:induction false} TwoDigits(base: nat, ds: seq<nat>, h: nat, l: nat)
    ensures FromDigits(base, ds + [h, l]) == base * (base * FromDigits(base, ds) + h) + l
  {
    assert ds + [h, l] == ds + [h] + [l];
    OneDigit(base, ds + [h], l);
    OneDigit(base, ds, h);
  }

  /** Moving the digits d of v = q * p + d in front of a tail of weight e. */
  lemma {:induction false} MoveDigits(v: nat, q: nat, d: nat, p: nat, e: nat, pe: nat, tail: nat, total: nat)
    requires Times(v, e) + tail == total && v == Times(q, p) + d && pe == p * e
    ensures Times(q, pe) + (Times(d, e) + tail) == total
  {
    TimesAdd(Times(q, p), d, e);
    TimesAssoc(q, p, e);
  }
}
