/** Big-endian bytes and hexadecimal text of a fixed-width integer. */
module UintHex {
  import opened Arith
  import opened Bytes
  import opened Limbs
  import opened Words
  import opened Digits

  datatype HexResult = Ok(value: Uint) | InvalidLength(len: nat) | InvalidChar

  // ---- bytes ----

  lemma {:induction false} BeBytesValue(x: nat, k: nat)
    requires x < Pow(256, k)
    ensures FromDigits(256, BeBytes(x, k)) == x
  {
    if k > 0 {
      BeBytesValue(x / 256, k - 1);
      assert BeBytes(x, k)[..k - 1] == BeBytes(x / 256, k - 1);
    }
  }

  lemma ByteRadix(k: nat)
    ensures Pow(256, 8 * k) == Pow(B, k)
  {
    assert Pow(2, 8) == 256;
    PowPower(2, 8, 8 * k);
    RadixBits(k);
  }

  lemma ScaleAsTimes(x: nat, k: nat)
    ensures Scale(x, k) == Times(x, Pow(B, k))
  {
    ScaleIs(x, k);
    TimesIs(x, Pow(B, k));
  }

  function ToBeBytes(a: Uint): (bs: seq<byte>)
    ensures |bs| == 8 * |a|
  {
    if |a| == 0 then [] else BeBytes(a[|a| - 1], 8) + ToBeBytes(a[..|a| - 1])
  }

  lemma {:induction false} ToBeBytesValue(a: Uint)
    ensures FromDigits(256, ToBeBytes(a)) == Val(a)
  {
    if |a| > 0 {
      var k := |a| - 1;
      ToBeBytesValue(a[..k]);
      ByteRadix(1);
      BeBytesValue(a[k], 8);
      ByteRadix(k);
      DigitsConcat(256, BeBytes(a[k], 8), ToBeBytes(a[..k]));
      ScaleAsTimes(a[k], k);
    }
  }

  /** Eight bytes as one limb. */
  function WordFromBytes(bs: seq<byte>): (x: u64)
    requires |bs| == 8
  {
    DigitsBound(256, bs);
    ByteRadix(1);
    FromDigits(256, bs)
  }

  /** n limbs from 8n bytes, most significant first. */
  function FromBeBytes(n: nat, bs: seq<byte>): (a: Uint)
    requires |bs| == 8 * n
    ensures |a| == n
  {
    if n == 0 then [] else FromBeBytes(n - 1, bs[8..]) + [WordFromBytes(bs[..8])]
  }

  lemma {:induction false} FromBeBytesValue(n: nat, bs: seq<byte>)
    requires |bs| == 8 * n
    ensures Val(FromBeBytes(n, bs)) == FromDigits(256, bs)
  {
    if n > 0 {
      FromBeBytesValue(n - 1, bs[8..]);
      ValSnoc(FromBeBytes(n - 1, bs[8..]), WordFromBytes(bs[..8]));
      ScaleBytes(WordFromBytes(bs[..8]), n - 1);
      TopBytes(n, bs);
    }
  }

  lemma TopBytes(n: nat, bs: seq<byte>)
    requires n > 0 && |bs| == 8 * n
    ensures FromDigits(256, bs) == Times(WordFromBytes(bs[..8]), Pow(256, 8 * (n - 1))) + FromDigits(256, bs[8..])
  {
    assert bs == bs[..8] + bs[8..];
    DigitsConcat(256, bs[..8], bs[8..]);
  }

  lemma ScaleBytes(x: nat, k: nat)
    ensures Scale(x, k) == Times(x, Pow(256, 8 * k))
  {
    ByteRadix(k);
    ScaleAsTimes(x, k);
  }

  // ---- hexadecimal ----

  function HexChar(d: nat): char
    requires d < 16
  {
    if d < 10 then '0' + d as char else 'a' + (d - 10) as char
  }

  /** The digit a character stands for; both letter cases are accepted. */
  function HexDigit(c: char): (d: int)
    ensures -1 <= d < 16
  {
    if '0' <= c <= '9' then c as int - '0' as int
    else if 'a' <= c <= 'f' then c as int - 'a' as int + 10
    else if 'A' <= c <= 'F' then c as int - 'A' as int + 10
    else -1
  }

  predicate AllHex(s: string)
  {
    forall i :: 0 <= i < |s| ==> HexDigit(s[i]) >= 0
  }

  function HexDigits(s: string): (ds: seq<nat>)
    requires AllHex(s)
    ensures |ds| == |s|
  {
    seq(|s|, i requires 0 <= i < |s| => HexDigit(s[i]))
  }

  /** The number a hexadecimal string denotes. */
  function ParseHex(s: string): nat
    requires AllHex(s)
  {
    FromDigits(16, HexDigits(s))
  }

  function HexEncode(bs: seq<byte>): (s: string)
    ensures |s| == 2 * |bs| && AllHex(s)
  {
    if |bs| == 0 then []
    else HexEncode(bs[..|bs| - 1]) + [HexChar(bs[|bs| - 1] / 16), HexChar(bs[|bs| - 1] % 16)]
  }

  /** m bytes from 2m digits. */
  function HexDecode(m: nat, s: string): (bs: seq<byte>)
    requires AllHex(s) && |s| == 2 * m
    ensures |bs| == m
  {
    if m == 0 then []
    else HexDecode(m - 1, s[..2 * m - 2]) + [16 * HexDigit(s[2 * m - 2]) + HexDigit(s[2 * m - 1])]
  }

  lemma {:induction false} HexEncodeValue(bs: seq<byte>)
    ensures ParseHex(HexEncode(bs)) == FromDigits(256, bs)
  {
    if |bs| > 0 {
      var k := |bs| - 1;
      var b := bs[k];
      var init := HexEncode(bs[..k]);
      HexEncodeValue(bs[..k]);
      assert HexDigits(HexEncode(bs)) == HexDigits(init) + [b / 16, b % 16];
      TwoDigits(16, HexDigits(init), b / 16, b % 16);
    }
  }

  lemma {:induction false} HexDecodeValue(m: nat, s: string)
    requires AllHex(s) && |s| == 2 * m
    ensures FromDigits(256, HexDecode(m, s)) == ParseHex(s)
  {
    if m > 0 {
      var init := s[..2 * m - 2];
      var h, l := HexDigit(s[2 * m - 2]), HexDigit(s[2 * m - 1]);
      HexDecodeValue(m - 1, init);
      HexDigitsSplit(s, init, h, l);
      TwoDigits(16, HexDigits(init), h, l);
      OneDigit(256, HexDecode(m - 1, init), 16 * h + l);
    }
  }

  lemma HexDigitsSplit(s: string, init: string, h: nat, l: nat)
    requires AllHex(s) && |s| >= 2 && init == s[..|s| - 2]
    requires h == HexDigit(s[|s| - 2]) && l == HexDigit(s[|s| - 1])
    ensures HexDigits(s) == HexDigits(init) + [h, l]
  {
  }

  /** The first index whose character is not '0', or the last index if there is none. */
  function FirstNonZero(s: string): (i: nat)
    requires |s| > 0
    ensures i < |s|
    ensures forall j :: 0 <= j < i ==> s[j] == '0'
    ensures i < |s| - 1 ==> s[i] != '0'
  {
    if s[0] != '0' || |s| == 1 then 0 else 1 + FirstNonZero(s[1..])
  }

  function LowerHex(a: Uint): string
    requires |a| > 0
  {
    var hex := HexEncode(ToBeBytes(a));
    hex[FirstNonZero(hex)..]
  }

  predicate AllLower(s: string)
  {
    forall i :: 0 <= i < |s| ==> '0' <= s[i] <= '9' || 'a' <= s[i] <= 'f'
  }

  lemma {:induction false} HexEncodeIsLower(bs: seq<byte>)
    ensures AllLower(HexEncode(bs))
  {
    if |bs| > 0 { HexEncodeIsLower(bs[..|bs| - 1]); }
  }

  lemma StrippedDigits(hex: string, k: nat)
    requires AllHex(hex) && k <= |hex| && forall j :: 0 <= j < k ==> hex[j] == '0'
    ensures AllHex(hex[k..]) && ParseHex(hex[k..]) == ParseHex(hex)
  {
    assert HexDigits(hex) == seq(k, i => 0) + HexDigits(hex[k..]);
    LeadingZerosVanish(16, k, HexDigits(hex[k..]));
  }

  /** Lower-case hexadecimal text: no leading zero, at most 16 digits a limb, and the right number. */
  lemma {:induction false} LowerHexIsMinimal(a: Uint)
    requires |a| > 0
    ensures 0 < |LowerHex(a)| <= 16 * |a| && AllHex(LowerHex(a)) && AllLower(LowerHex(a))
    ensures ParseHex(LowerHex(a)) == Val(a)
    ensures |LowerHex(a)| > 1 ==> LowerHex(a)[0] != '0'
  {
    var hex := HexEncode(ToBeBytes(a));
    var k := FirstNonZero(hex);
    ToBeBytesValue(a);
    HexEncodeValue(ToBeBytes(a));
    HexEncodeIsLower(ToBeBytes(a));
    StrippedDigits(hex, k);
  }

  /** from_hex for a type of n limbs: left-pad with '0', decode, read big-endian. */
  function FromHex(n: nat, s: string): HexResult
  {
    if |s| > 16 * n then InvalidLength(|s|)
    else
      var input := seq(16 * n - |s|, i => '0') + s;
      if !AllHex(input) then InvalidChar else Ok(FromBeBytes(n, HexDecode(8 * n, input)))
  }

  /** Exactly the hexadecimal strings that fit are read, and they are read as their number. */
  lemma FromHexReads(n: nat, s: string)
    ensures FromHex(n, s).Ok? <==> |s| <= 16 * n && AllHex(s)
    ensures FromHex(n, s) == InvalidLength(|s|) <==> |s| > 16 * n
    ensures FromHex(n, s).InvalidChar? <==> |s| <= 16 * n && !AllHex(s)
    ensures FromHex(n, s).Ok? ==> |FromHex(n, s).value| == n && Val(FromHex(n, s).value) == ParseHex(s)
  {
    if |s| <= 16 * n {
      var k := 16 * n - |s|;
      var input := seq(k, i => '0') + s;
      PaddingIsHex(k, s, input);
      if AllHex(s) {
        PaddedDigits(k, s, input);
        DecodeValue(input, n);
      }
    }
  }

  lemma PaddingIsHex(k: nat, s: string, input: string)
    requires input == seq(k, i => '0') + s
    ensures AllHex(input) <==> AllHex(s)
  {
    assert forall i :: 0 <= i < |s| ==> s[i] == input[k + i];
  }

  lemma DecodeValue(input: string, n: nat)
    requires AllHex(input) && |input| == 16 * n
    ensures Val(FromBeBytes(n, HexDecode(8 * n, input))) == ParseHex(input)
  {
    HexDecodeValue(8 * n, input);
    FromBeBytesValue(n, HexDecode(8 * n, input));
  }

  lemma PaddedDigits(k: nat, s: string, input: string)
    requires AllHex(s) && input == seq(k, i => '0') + s
    ensures AllHex(input) && ParseHex(input) == ParseHex(s)
  {
    assert HexDigits(input) == seq(k, i => 0) + HexDigits(s);
    LeadingZerosVanish(16, k, HexDigits(s));
  }

  /** Reading back what LowerHex prints gives the same limbs. */
  lemma HexRoundTrip(a: Uint)
    requires |a| > 0
    ensures FromHex(|a|, LowerHex(a)) == Ok(a)
  {
    LowerHexIsMinimal(a);
    FromHexReads(|a|, LowerHex(a));
    CmpIsNumeric(FromHex(|a|, LowerHex(a)).value, a);
  }
}
