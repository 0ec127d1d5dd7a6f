/** Decimal printing into a fixed buffer, four digits at a time from the right. */
module UintDisplay {
  import opened Arith
  import opened Limbs
  import opened Words
  import opened Digits
  import opened Outcomes
  import opened UintDiv

  predicate AllDigits(s: string)
  {
    forall i :: 0 <= i < |s| ==> '0' <= s[i] <= '9'
  }

  function DecimalDigits(s: string): (ds: seq<nat>)
    requires AllDigits(s)
    ensures |ds| == |s|
  {
    seq(|s|, i requires 0 <= i < |s| => s[i] as int - '0' as int)
  }

  /** The number a string of decimal digits denotes. */
  function ParseDecimal(s: string): nat
    requires AllDigits(s)
  {
    FromDigits(10, DecimalDigits(s))
  }

  lemma ParseConcat(s: string, t: string)
    requires AllDigits(s) && AllDigits(t)
    ensures AllDigits(s + t)
    ensures ParseDecimal(s + t) == Times(ParseDecimal(s), Pow(10, |t|)) + ParseDecimal(t)
  {
    var x, y := DecimalDigits(s), DecimalDigits(t);
    assert DecimalDigits(s + t) == x + y;
    DigitsConcat(10, x, y);
  }

  function DigitChar(d: nat): (c: char)
    requires d < 10
    ensures c as int == '0' as int + d
  {
    '0' + d as char
  }

  /** The two-digit table: entries 2k and 2k + 1 are the digits of k. */
  function DecDigitsLut(i: nat): (c: char)
    requires i < 200
    ensures '0' <= c <= '9'
  {
    if i % 2 == 0 then DigitChar(i / 2 / 10) else DigitChar(i / 2 % 10)
  }

  /** The two characters the table holds for k. */
  function Pair(k: nat): (s: string)
    requires k < 100
    ensures AllDigits(s) && |s| == 2 && ParseDecimal(s) == k
    ensures k >= 10 ==> s[0] != '0'
  {
    PairParses(k, DigitChar(k / 10), DigitChar(k % 10));
    [DecDigitsLut(2 * k), DecDigitsLut(2 * k + 1)]
  }

  lemma PairParses(k: nat, c: char, d: char)
    requires k < 100 && c == DigitChar(k / 10) && d == DigitChar(k % 10)
    ensures AllDigits([c, d]) && ParseDecimal([c, d]) == k
  {
    assert DecimalDigits([c, d]) == [] + [k / 10, k % 10];
    TwoDigits(10, [], k / 10, k % 10);
  }

  lemma QuadParses(rem: nat)
    requires rem < 10000
    ensures AllDigits(Pair(rem / 100) + Pair(rem % 100))
    ensures ParseDecimal(Pair(rem / 100) + Pair(rem % 100)) == rem
  {
    ParseConcat(Pair(rem / 100), Pair(rem % 100));
    TimesIs(rem / 100, 100);
    assert Pow(10, 2) == 100;
  }

  /** What is left to print, followed by the digits already printed, denotes `total`. */
  ghost predicate Printed(v: nat, tail: string, total: nat)
  {
    AllDigits(tail) && Times(v, Pow(10, |tail|)) + ParseDecimal(tail) == total
  }

  /** Printing the digits of v's remainder in front of the tail leaves v's quotient. */
  lemma {:induction false} PrintDigits(v: nat, q: nat, digits: string, tail: string, total: nat)
    requires Printed(v, tail, total) && AllDigits(digits)
    requires v == Times(q, Pow(10, |digits|)) + ParseDecimal(digits)
    ensures Printed(q, digits + tail, total)
  {
    var p, e := Pow(10, |digits|), Pow(10, |tail|);
    ParseConcat(digits, tail);
    PowAdd(10, |digits|, |tail|);
    assert |digits + tail| == |digits| + |tail|;
    MoveDigits(v, q, ParseDecimal(digits), p, e, Pow(10, |digits + tail|), ParseDecimal(tail), total);
  }

  predicate GreaterEqualWord(a: Uint, x: u64)
    requires |a| > 0
  {
    (exists i :: 1 <= i < |a| && a[i] != 0) || a[0] >= x
  }

  lemma {:induction false} GreaterEqualWordIs(a: Uint, x: u64)
    requires |a| > 0
    ensures GreaterEqualWord(a, x) <==> Val(a) >= x
    ensures !GreaterEqualWord(a, x) ==> Val(a) == a[0]
  {
    ValCons(a, 0);
    assert a[0..] == a;
    ValZeros(a[1..]);
    if exists i :: 1 <= i < |a| && a[i] != 0 {
      var i :| 1 <= i < |a| && a[i] != 0;
      assert a[1..][i - 1] != 0;
    } else {
      assert forall i :: 0 <= i < |a[1..]| ==> a[1..][i] == a[i + 1];
    }
  }

  /** 2^64 < 10^20, so 20 digits per limb are enough. */
  lemma BufferSuffices(n: nat)
    ensures Pow(2, 64 * n) <= Pow(10, 20 * n)
  {
    PowWord();
    PowTwenty();
    PowPower(2, 64, n);
    PowPower(10, 20, n);
    PowBaseMono(Pow(2, 64), Pow(10, 20), n);
  }

  lemma PowTwenty()
    ensures Pow(10, 20) == 100_000_000_000_000_000_000
  {
    assert Pow(10, 5) == 100_000;
    PowAdd(10, 5, 5);
    PowAdd(10, 10, 10);
  }

  lemma {:induction false} PowBaseMono(b: nat, c: nat, n: nat)
    requires b <= c
    ensures Pow(b, n) <= Pow(c, n)
  {
    if n > 0 {
      PowBaseMono(b, c, n - 1);
      MulLe(b, c, Pow(b, n - 1));
      MulLe(Pow(b, n - 1), Pow(c, n - 1), c);
    }
  }

  lemma {:induction false} CursorRoom(v: nat, curr: nat, k: nat)
    requires Pow(10, k) <= v < Pow(10, curr)
    ensures k < curr
  {
    PowLess(10, k, curr);
  }

  /** Four digits fewer to print need four places fewer. */
  lemma RoomAfterQuad(q: nat, rem: nat, v: nat, curr: nat)
    requires v == Times(q, 10000) + rem && v < Pow(10, curr) && curr >= 4
    ensures q < Pow(10, curr - 4)
  {
    TimesIs(q, 10000);
    assert Pow(10, 4) == 10000;
    PowAdd(10, 4, curr - 4);
  }

  /** Writes the table's two characters for k at position `at`. */
  method PutPair(buf: array<char>, at: nat, k: nat)
    requires at + 2 <= buf.Length && k < 100
    modifies buf
    ensures buf[at..] == Pair(k) + old(buf[at + 2..])
  {
    buf[at] := DecDigitsLut(2 * k);
    buf[at + 1] := DecDigitsLut(2 * k + 1);
  }

  method PutQuad(buf: array<char>, at: nat, rem: nat)
    requires at + 4 <= buf.Length && rem < 10000
    modifies buf
    ensures buf[at..] == (Pair(rem / 100) + Pair(rem % 100)) + old(buf[at + 4..])
  {
    PutPair(buf, at + 2, rem % 100);
    PutPair(buf, at, rem / 100);
  }

  method Display(a: Uint) returns (s: string)
    requires |a| > 0
    ensures AllDigits(s) && ParseDecimal(s) == Val(a)
    ensures |s| > 0 && (|s| > 1 ==> s[0] != '0')
  {
    var buf := new char[|a| * 20](i => '0');
    var n, curr := DisplayQuads(a, buf);
    curr := DisplaySmall(buf, curr, n[0], Val(a));
    s := buf[curr..];
  }

  /** At most four digits remain: one pair if there are more than two, then the last one or two. */
  method DisplaySmall(buf: array<char>, cursor: nat, n: nat, ghost total: nat) returns (curr: nat)
    requires 0 < buf.Length && cursor <= buf.Length && n < 10000 && n < Pow(10, cursor)
    requires Printed(n, buf[cursor..], total)
    requires n == 0 ==> cursor == buf.Length
    modifies buf
    ensures curr < buf.Length
    ensures AllDigits(buf[curr..]) && ParseDecimal(buf[curr..]) == total
    ensures curr + 1 < buf.Length ==> buf[curr] != '0'
  {
    if n >= 100 {
      DisplayPair(buf, cursor, n, total);
      curr := DisplayLast(buf, cursor - 2, n / 100, total);
    } else {
      curr := DisplayLast(buf, cursor, n, total);
    }
  }

  method DisplayPair(buf: array<char>, cursor: nat, n: nat, ghost total: nat)
    requires cursor <= buf.Length && 100 <= n < 10000 && n < Pow(10, cursor) && Printed(n, buf[cursor..], total)
    modifies buf
    ensures cursor >= 2 && n / 100 < Pow(10, cursor - 2) && Printed(n / 100, buf[cursor - 2..], total)
  {
    assert Pow(10, 2) == 100;
    CursorRoom(n, cursor, 2);
    PrintPair(n, buf[cursor..], total, cursor - 2);
    PutPair(buf, cursor - 2, n % 100);
  }

  lemma PrintPair(v: nat, tail: string, total: nat, curr: nat)
    requires v < 10000 && Printed(v, tail, total) && v < Pow(10, curr + 2)
    ensures Printed(v / 100, Pair(v % 100) + tail, total)
    ensures v / 100 < Pow(10, curr)
  {
    assert Pow(10, 2) == 100;
    TimesIs(v / 100, 100);
    PrintDigits(v, v / 100, Pair(v % 100), tail, total);
    PowAdd(10, 2, curr);
  }

  /** The last one or two digits. */
  method DisplayLast(buf: array<char>, cursor: nat, n: nat, ghost total: nat) returns (curr: nat)
    requires cursor <= buf.Length && n < 100 && n < Pow(10, cursor) && (n == 0 ==> cursor > 0)
    requires Printed(n, buf[cursor..], total)
    requires n == 0 ==> cursor == buf.Length
    modifies buf
    ensures curr < buf.Length
    ensures AllDigits(buf[curr..]) && ParseDecimal(buf[curr..]) == total
    ensures curr + 1 < buf.Length ==> buf[curr] != '0'
  {
    ghost var tail := buf[cursor..];
    curr := cursor;
    if n < 10 {
      if n > 0 { CursorRoom(n, curr, 0); }
      curr := curr - 1;
      buf[curr] := DigitChar(n);
      assert buf[curr..] == [DigitChar(n)] + tail;
      ParseDigit(n);
      ParseConcat([DigitChar(n)], tail);
    } else {
      assert Pow(10, 1) == 10;
      CursorRoom(n, curr, 1);
      curr := curr - 2;
      PutPair(buf, curr, n);
      ParseConcat(Pair(n), tail);
    }
  }

  lemma ParseDigit(d: nat)
    requires d < 10
    ensures AllDigits([DigitChar(d)]) && ParseDecimal([DigitChar(d)]) == d
  {
    var ds := DecimalDigits([DigitChar(d)]);
    assert ds[..0] == [] && ds[0] == d;
    assert FromDigits(10, ds) == 10 * FromDigits(10, ds[..0]) + ds[0];
  }

  /** The loop that peels off four digits per division by 10000. */
  method DisplayQuads(a: Uint, buf: array<char>) returns (n: Uint, curr: nat)
    requires |a| > 0 && buf.Length == |a| * 20
    modifies buf
    ensures |n| == |a| && Val(n) == n[0] < 10000
    ensures curr <= buf.Length && Printed(Val(n), buf[curr..], Val(a))
    ensures Val(n) < Pow(10, curr) && (Val(n) == 0 ==> curr == buf.Length)
  {
    n := a;
    curr := buf.Length;
    EverythingToPrint(a, buf[curr..]);
    while GreaterEqualWord(n, 10000)
      invariant |n| == |a| && curr <= buf.Length
      invariant Printed(Val(n), buf[curr..], Val(a))
      invariant Val(n) < Pow(10, curr) && (Val(n) == 0 ==> curr == buf.Length)
      decreases Val(n)
    {
      n, curr := DisplayQuad(n, buf, curr, Val(a));
    }
    GreaterEqualWordIs(n, 10000);
  }

  /** One round of the loop: divide by 10000 and print the remainder's four digits. */
  method DisplayQuad(n: Uint, buf: array<char>, cursor: nat, ghost total: nat) returns (q: Uint, curr: nat)
    requires |n| > 0 && GreaterEqualWord(n, 10000)
    requires cursor <= buf.Length && Val(n) < Pow(10, cursor) && Printed(Val(n), buf[cursor..], total)
    modifies buf
    ensures |q| == |n| && 0 < Val(q) < Val(n)
    ensures curr <= buf.Length && Val(q) < Pow(10, curr) && Printed(Val(q), buf[curr..], total)
  {
    GreaterEqualWordIs(n, 10000);
    var out := DivRemWord(n, 10000);
    q := out.value.0;
    PrintQuad(Val(n), Val(q), out.value.1, buf[cursor..], total, cursor);
    curr := cursor - 4;
    PutQuad(buf, curr, out.value.1);
  }

  lemma {:induction false} EverythingToPrint(a: Uint, tail: string)
    requires tail == []
    ensures Printed(Val(a), tail, Val(a))
    ensures Val(a) < Pow(10, 20 * |a|)
  {
    TimesIs(Val(a), 1);
    ValBound(a);
    RadixBits(|a|);
    BufferSuffices(|a|);
  }

  lemma PrintQuad(v: nat, q: nat, rem: nat, tail: string, total: nat, curr: nat)
    requires v >= 10000 && v < Pow(10, curr) && Printed(v, tail, total)
    requires Times(q, 10000) + rem == v && rem < 10000
    ensures curr >= 4 && 0 < q < v && q < Pow(10, curr - 4)
    ensures Printed(q, (Pair(rem / 100) + Pair(rem % 100)) + tail, total)
  {
    assert Pow(10, 4) == 10000;
    CursorRoom(v, curr, 4);
    RoomAfterQuad(q, rem, v, curr);
    TimesIs(q, 10000);
    QuadParses(rem);
    PrintDigits(v, q, Pair(rem / 100) + Pair(rem % 100), tail, total);
  }
}
