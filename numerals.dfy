/** Positional numerals: strconv.FormatInt(n, base) with its inverse, and
    hex.EncodeToString with its inverse. */
module Numerals {
  import opened Common

  const Minus: Byte := 45

  /** The digits of n in the given base, most significant first, without leading zeros. */
  function Digits(n: nat, base: nat): (ds: seq<nat>)
    requires base >= 2
    ensures |ds| >= 1
    ensures forall i :: 0 <= i < |ds| ==> ds[i] < base
    ensures |ds| > 1 ==> ds[0] != 0
    decreases n
  {
    if n < base then [n]
    else
      QuotientBounds(n, base);
      Digits(n / base, base) + [n % base]
  }

  lemma QuotientBounds(n: nat, base: nat)
    requires 2 <= base <= n
    ensures 1 <= n / base < n && n % base < base
  {
  }

  /** The number that a digit list denotes. */
  function Value(ds: seq<nat>, base: nat): nat
  {
    if ds == [] then 0 else Value(ds[..|ds| - 1], base) * base + ds[|ds| - 1]
  }

  lemma ValueSnoc(ds: seq<nat>, d: nat, base: nat)
    ensures Value(ds + [d], base) == Value(ds, base) * base + d
  {
    assert (ds + [d])[..|ds|] == ds;
  }

  lemma ValueStep(ds: seq<nat>, q: nat, r: nat, base: nat)
    requires Value(ds, base) == q
    ensures Value(ds + [r], base) == q * base + r
  {
    ValueSnoc(ds, r, base);
  }

  lemma DivMod(n: nat, base: nat)
    requires base >= 2
    ensures n == (n / base) * base + n % base
    ensures n >= base ==> n / base < n
  {
  }

  /** The digits of n denote n. */
  lemma {:induction false} ValueOfDigits(n: nat, base: nat)
    requires base >= 2
    ensures Value(Digits(n, base), base) == n
    decreases n
  {
    if n >= base {
      var q, r := n / base, n % base;
      DivMod(n, base);
      assert Digits(n, base) == Digits(q, base) + [r];
      ValueOfDigits(q, base);
      ValueStep(Digits(q, base), q, r, base);
    }
  }

  /** '0'..'9' then lower-case 'a'..'f'. */
  function DigitByte(d: nat): (c: Byte)
    requires d < 16
  {
    if d < 10 then 48 + d else 87 + d
  }

  predicate IsLowerHex(c: Byte)
  {
    48 <= c <= 57 || 97 <= c <= 102
  }

  function ByteDigit(c: Byte): (d: Option<nat>)
    ensures d.Some? <==> IsLowerHex(c)
    ensures d.Some? ==> d.value < 16 && DigitByte(d.value) == c
  {
    if 48 <= c <= 57 then Some(c - 48)
    else if 97 <= c <= 102 then Some(c - 87)
    else None
  }

  function Render(ds: seq<nat>): (s: Bytes)
    requires forall i :: 0 <= i < |ds| ==> ds[i] < 16
    ensures |s| == |ds|
    ensures forall i :: 0 <= i < |s| ==> IsLowerHex(s[i]) && s[i] == DigitByte(ds[i])
  {
    if ds == [] then [] else [DigitByte(ds[0])] + Render(ds[1..])
  }

  /** Reads every byte of s as a digit below base. */
  function DigitsOf(s: Bytes, base: nat): Option<seq<nat>>
  {
    if s == [] then Some([])
    else
      var d :- ByteDigit(s[0]);
      if d >= base then None
      else
        var rest :- DigitsOf(s[1..], base);
        Some([d] + rest)
  }

  lemma {:induction false} DigitsOfRender(ds: seq<nat>, base: nat)
    requires base <= 16
    requires forall i :: 0 <= i < |ds| ==> ds[i] < base
    ensures DigitsOf(Render(ds), base) == Some(ds)
  {
    if ds != [] {
      var s := Render(ds);
      assert s[0] == DigitByte(ds[0]) && s[1..] == Render(ds[1..]);
      DigitsOfRender(ds[1..], base);
      assert [ds[0]] + ds[1..] == ds;
    }
  }

  /** strconv.FormatInt for a non-negative argument. */
  function FormatNat(n: nat, base: nat): (s: Bytes)
    requires 2 <= base <= 16
    ensures |s| >= 1 && forall i :: 0 <= i < |s| ==> IsLowerHex(s[i])
    ensures base <= 10 ==> forall i :: 0 <= i < |s| ==> 48 <= s[i] <= 57
  {
    Render(Digits(n, base))
  }

  /** strconv.FormatInt: an optional minus sign, then the digits of |n|. */
  function FormatInt(n: int, base: nat): (s: Bytes)
    requires 2 <= base <= 16
    ensures |s| >= 1
    ensures forall i :: 0 <= i < |s| ==> IsLowerHex(s[i]) || s[i] == Minus
    ensures forall i :: 0 < i < |s| ==> s[i] != Minus
    ensures (s[0] == Minus) == (n < 0)
    ensures base <= 10 ==> forall i :: 0 <= i < |s| ==> 48 <= s[i] <= 57 || s[i] == Minus
  {
    if n < 0 then [Minus] + FormatNat(-n, base) else FormatNat(n, base)
  }

  function ParseNat(s: Bytes, base: nat): Option<nat>
  {
    if s == [] then None
    else
      var ds :- DigitsOf(s, base);
      Some(Value(ds, base))
  }

  /** strconv.ParseInt: the inverse of FormatInt. */
  function ParseInt(s: Bytes, base: nat): Option<int>
  {
    if |s| > 0 && s[0] == Minus then
      var n :- ParseNat(s[1..], base);
      var v: int := 0 - n as int;
      Some(v)
    else ParseNat(s, base)
  }

  lemma ParseFormatNat(n: nat, base: nat)
    requires 2 <= base <= 16
    ensures ParseNat(FormatNat(n, base), base) == Some(n)
  {
    DigitsOfRender(Digits(n, base), base);
    ValueOfDigits(n, base);
  }

  /** FormatInt round-trips through ParseInt, for every integer and base. */
  lemma ParseFormatInt(n: int, base: nat)
    requires 2 <= base <= 16
    ensures ParseInt(FormatInt(n, base), base) == Some(n)
  {
    if n < 0 {
      var s := FormatInt(n, base);
      assert s[1..] == FormatNat(-n, base);
      ParseFormatNat(-n, base);
    } else {
      ParseFormatNat(n, base);
      assert FormatNat(n, base)[0] != Minus;
    }
  }

  /** Distinct numbers have distinct renderings. */
  lemma FormatIntInjective(a: int, b: int, base: nat)
    requires 2 <= base <= 16
    requires a != b
    ensures FormatInt(a, base) != FormatInt(b, base)
  {
    ParseFormatInt(a, base);
    ParseFormatInt(b, base);
  }

  /** hex.EncodeToString: two lower-case digits per byte, high nibble first. */
  function HexEncode(bs: Bytes): (s: Bytes)
    ensures |s| == 2 * |bs|
    ensures forall i :: 0 <= i < |s| ==> IsLowerHex(s[i])
  {
    if bs == [] then [] else [DigitByte(bs[0] / 16), DigitByte(bs[0] % 16)] + HexEncode(bs[1..])
  }

  /** hex.DecodeString on lower-case input. */
  function HexDecode(s: Bytes): Option<Bytes>
    decreases |s|
  {
    if s == [] then Some([])
    else if |s| == 1 then None
    else
      var hi :- ByteDigit(s[0]);
      var lo :- ByteDigit(s[1]);
      var rest :- HexDecode(s[2..]);
      var b: Byte := hi * 16 + lo;
      Some([b] + rest)
  }

  lemma {:induction false} HexRoundTrip(bs: Bytes)
    ensures HexDecode(HexEncode(bs)) == Some(bs)
  {
    if bs != [] {
      var s := HexEncode(bs);
      assert s[2..] == HexEncode(bs[1..]);
      HexRoundTrip(bs[1..]);
      assert [bs[0]] + bs[1..] == bs;
    }
  }

  /** Distinct digests give distinct hex names. */
  lemma HexInjective(a: Bytes, b: Bytes)
    requires a != b
    ensures HexEncode(a) != HexEncode(b)
  {
    HexRoundTrip(a);
    HexRoundTrip(b);
  }
}
