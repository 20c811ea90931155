/** Numbers as the application reads and writes them: Python's `float()` on a
    string, `round(x, ndigits=2)` and the `{:.4f}` format. Values are reals;
    the binary rounding of IEEE doubles is not modelled. */
module Numbers {
  import opened Wrappers
  import opened Text

  function DigitValue(c: char): (d: nat)
    requires IsDigit(c)
    ensures d < 10
  {
    c as int - '0' as int
  }

  function DigitChar(d: nat): (c: char)
    requires d < 10
    ensures IsDigit(c) && DigitValue(c) == d
  {
    ('0' as int + d) as char
  }

  predicate AllDigits(s: string) {
    forall i :: 0 <= i < |s| ==> IsDigit(s[i])
  }

  /** The value of a string of decimal digits (leading zeros allowed). */
  function NatValue(s: string): nat
    requires AllDigits(s)
  {
    if s == [] then 0 else NatValue(s[..|s| - 1]) * 10 + DigitValue(s[|s| - 1])
  }

  function Pow10(n: nat): (p: nat)
    ensures p >= 1
  {
    if n == 0 then 1 else 10 * Pow10(n - 1)
  }

  /** `str(n)` for a natural number: its shortest decimal spelling. */
  function NatDigits(n: nat): (s: string)
    ensures s != [] && AllDigits(s)
  {
    if n < 10 then [DigitChar(n)] else NatDigits(n / 10) + [DigitChar(n % 10)]
  }

  /** `n` written with exactly `w` digits, zero-padded on the left. */
  function PadDigits(n: nat, w: nat): (s: string)
    ensures |s| == w && AllDigits(s)
  {
    if w == 0 then [] else PadDigits(n / 10, w - 1) + [DigitChar(n % 10)]
  }

  lemma {:induction false} NatDigitsValue(n: nat)
    ensures NatValue(NatDigits(n)) == n
  {
    if n >= 10 {
      NatDigitsValue(n / 10);
      var s := NatDigits(n);
      assert s[..|s| - 1] == NatDigits(n / 10);
    }
  }

  lemma {:induction false} PadDigitsValue(n: nat, w: nat)
    requires n < Pow10(w)
    ensures NatValue(PadDigits(n, w)) == n
  {
    if w > 0 {
      assert n / 10 < Pow10(w - 1);
      PadDigitsValue(n / 10, w - 1);
      var s := PadDigits(n, w);
      assert s[..|s| - 1] == PadDigits(n / 10, w - 1);
    }
  }

  /** End of the run of digits that starts at `i`. */
  function DigitRunEnd(s: string, i: nat): (j: nat)
    requires i <= |s|
    ensures i <= j <= |s|
    ensures forall k :: i <= k < j ==> IsDigit(s[k])
    ensures j == |s| || !IsDigit(s[j])
    decreases |s| - i
  {
    if i < |s| && IsDigit(s[i]) then DigitRunEnd(s, i + 1) else i
  }

  /** The run of digits from `i` is determined by where it stops. */
  lemma {:induction false} DigitRunEndAt(s: string, i: nat, j: nat)
    requires i <= j <= |s|
    requires forall k :: i <= k < j ==> IsDigit(s[k])
    requires j == |s| || !IsDigit(s[j])
    ensures DigitRunEnd(s, i) == j
    decreases j - i
  {
    if i < j {
      DigitRunEndAt(s, i + 1, j);
    }
  }

  /** The value of the digits after a decimal point: "25" is 0.25. */
  function FractionValue(s: string): (r: real)
    requires AllDigits(s)
    ensures 0.0 <= r <= 1.0
  {
    if s == [] then 0.0 else (DigitValue(s[0]) as real + FractionValue(s[1..])) / 10.0
  }

  /** `x * 10 ** e` for a possibly negative exponent. */
  function Scaled(x: real, e: int): real
    decreases if e >= 0 then e else -e
  {
    if e == 0 then x else if e > 0 then Scaled(x * 10.0, e - 1) else Scaled(x / 10.0, e + 1)
  }

  /** The optional exponent `[eE][+-]?digits` that must end the text at `k`;
      `None` when something else follows the number. */
  function Exponent(t: string, k: nat): Option<int>
    requires k <= |t|
  {
    if k == |t| then Some(0)
    else if t[k] != 'e' && t[k] != 'E' then None
    else
      var i := if k + 1 < |t| && (t[k + 1] == '-' || t[k + 1] == '+') then k + 2 else k + 1;
      var j := DigitRunEnd(t, i);
      if j == i || j != |t| then None
      else
        var e: int := NatValue(t[i..j]);
        Some(if t[k + 1] == '-' then -e else e)
  }

  function SignLength(t: string): (i: nat)
    ensures i <= |t|
  {
    if |t| > 0 && (t[0] == '-' || t[0] == '+') then 1 else 0
  }

  /** Where the fractional digits that follow a point at `j` stop; `j` itself
      when no point is there. */
  function FractionEnd(t: string, j: nat): (k: nat)
    requires j <= |t|
    ensures j <= k <= |t|
  {
    if j < |t| && t[j] == '.' then DigitRunEnd(t, j + 1) else j
  }

  /** The unsigned number that must fill `t` from `i` to its end. */
  function Magnitude(t: string, i: nat): Option<real>
    requires i <= |t|
  {
    var j := DigitRunEnd(t, i);
    var k := FractionEnd(t, j);
    var whole := t[i..j];
    var fraction := if k > j then t[j + 1..k] else [];
    if whole == [] && fraction == [] then None
    else
      match Exponent(t, k)
      case None => None
      case Some(e) =>
        Some(Scaled(NatValue(whole) as real + FractionValue(fraction), e))
  }

  /** Python's `float(s)` on decimal text: surrounding whitespace, an optional
      sign, digits with an optional fractional part (at least one digit in all)
      and an optional exponent. Anything else raises `ValueError`, here `None`. */
  function ParseFloat(s: string): Option<real> {
    ParseNumber(Trim(s))
  }

  /** `float()` once the surrounding whitespace is gone. */
  function ParseNumber(t: string): Option<real> {
    var i := SignLength(t);
    match Magnitude(t, i)
    case None => None
    case Some(m) => Some(if i == 1 && t[0] == '-' then -m else m)
  }

  function Abs(x: real): real { if x < 0.0 then -x else x }

  /** The integer nearest to `x`, ties going to the even one, as Python rounds. */
  function RoundHalfEven(x: real): (n: int)
    ensures n as real - x <= 0.5 && x - n as real <= 0.5
    ensures (n as real - x == 0.5 || x - n as real == 0.5) ==> n % 2 == 0
  {
    var f := x.Floor;
    var d := x - f as real;
    if d < 0.5 then f
    else if d > 0.5 then f + 1
    else if f % 2 == 0 then f
    else f + 1
  }

  /** `round(x, ndigits=2)`: the nearest multiple of 0.01, ties to even. */
  function Round2(x: real): (r: real)
    ensures Abs(r - x) <= 0.005
  {
    RoundHalfEven(x * 100.0) as real / 100.0
  }

  /** The number of ten-thousandths `{:.4f}` writes for `x`, without its sign. */
  function Units4(x: real): (n: nat)
    ensures Abs(n as real - Abs(x) * 10000.0) <= 0.5
  {
    var n := RoundHalfEven(Abs(x) * 10000.0);
    n
  }

  /** `f"{x:.4f}"`: sign (kept for negative values that round to zero),
      integer digits, a point and exactly four decimals. */
  function Format4(x: real): string {
    var n := Units4(x);
    (if x < 0.0 then "-" else "") + NatDigits(n / 10000) + "." + PadDigits(n % 10000, 4)
  }

  /** The value `Format4(x)` spells. */
  function Fixed4(x: real): (r: real)
    ensures Abs(r - x) <= 0.00005
  {
    if x < 0.0 then -(Units4(x) as real / 10000.0) else Units4(x) as real / 10000.0
  }

  /** The text of a plain decimal: an optional minus sign, digits, and a point
      followed by digits when `fraction` is not empty. */
  function DecimalText(negative: bool, whole: string, fraction: string): string {
    (if negative then "-" else "") + whole + (if fraction == [] then "" else "." + fraction)
  }

  function DecimalValue(negative: bool, whole: string, fraction: string): real
    requires AllDigits(whole) && AllDigits(fraction)
  {
    var magnitude := NatValue(whole) as real + FractionValue(fraction);
    if negative then -magnitude else magnitude
  }

  /** `float()` accepts every plain decimal and gives its value. */
  lemma ParseDecimalText(negative: bool, whole: string, fraction: string)
    requires whole != [] && AllDigits(whole) && AllDigits(fraction)
    ensures ParseFloat(DecimalText(negative, whole, fraction)) == Some(DecimalValue(negative, whole, fraction))
  {
    var sign: string := if negative then "-" else "";
    var tail: string := if fraction == [] then "" else "." + fraction;
    var t := DecimalText(negative, whole, fraction);
    assert t == sign + whole + tail;
    assert Trim(t) == t by {
      assert t[|t| - 1] == if fraction == [] then whole[|whole| - 1] else fraction[|fraction| - 1];
      StripKeeps(t, Whitespace);
    }
    ParseNumberDecimalText(negative, whole, fraction);
  }

  lemma ParseNumberDecimalText(negative: bool, whole: string, fraction: string)
    requires whole != [] && AllDigits(whole) && AllDigits(fraction)
    ensures ParseNumber(DecimalText(negative, whole, fraction)) == Some(DecimalValue(negative, whole, fraction))
  {
    var t := DecimalText(negative, whole, fraction);
    var i := if negative then 1 else 0;
    var j := i + |whole|;
    DecimalTextMagnitude(negative, whole, fraction);
    SignedMagnitude(t, negative, NatValue(whole) as real + FractionValue(fraction));
  }

  /** The unsigned part of a plain decimal's text is its digits' value. */
  lemma DecimalTextMagnitude(negative: bool, whole: string, fraction: string)
    requires whole != [] && AllDigits(whole) && AllDigits(fraction)
    ensures var t := DecimalText(negative, whole, fraction);
      SignLength(t) == (if negative then 1 else 0) && (negative ==> t[0] == '-') &&
      Magnitude(t, SignLength(t)) == Some(NatValue(whole) as real + FractionValue(fraction))
  {
    var t := DecimalText(negative, whole, fraction);
    var i := if negative then 1 else 0;
    DecimalTextLayout(negative, whole, fraction);
    MagnitudeOfDigits(t, i, i + |whole|, whole, fraction);
  }

  lemma SignedMagnitude(t: string, negative: bool, m: real)
    requires SignLength(t) == (if negative then 1 else 0) && (negative ==> t[0] == '-')
    requires Magnitude(t, SignLength(t)) == Some(m)
    ensures ParseNumber(t) == Some(if negative then -m else m)
  {
  }

  /** Where the parts of a plain decimal's text sit. */
  lemma DecimalTextLayout(negative: bool, whole: string, fraction: string)
    requires whole != [] && AllDigits(whole) && AllDigits(fraction)
    ensures var t := DecimalText(negative, whole, fraction);
      var i := if negative then 1 else 0;
      var j := i + |whole|;
      && j <= |t| && SignLength(t) == i && (negative ==> t[0] == '-')
      && DigitRunEnd(t, i) == j && t[i..j] == whole
      && FractionEnd(t, j) == |t| && (fraction != [] ==> j < |t| && t[j + 1..|t|] == fraction)
      && (fraction == [] ==> j == |t|)
  {
    var sign: string := if negative then "-" else "";
    var tail: string := if fraction == [] then "" else "." + fraction;
    var t := DecimalText(negative, whole, fraction);
    assert t == sign + whole + tail;
    WholeLayout(sign, whole, tail);
    if fraction != [] {
      assert t == (sign + whole) + "." + fraction;
      FractionLayout(sign + whole, fraction);
    }
  }

  /** The digit run after the sign is exactly the whole part. */
  lemma WholeLayout(sign: string, whole: string, tail: string)
    requires AllDigits(whole) && (tail == [] || !IsDigit(tail[0]))
    ensures var t := sign + whole + tail;
      DigitRunEnd(t, |sign|) == |sign| + |whole| && t[|sign|..|sign| + |whole|] == whole
  {
    WholeRun(sign, whole, tail);
    WholeSlice(sign, whole, tail);
  }

  lemma WholeRun(sign: string, whole: string, tail: string)
    requires AllDigits(whole) && (tail == [] || !IsDigit(tail[0]))
    ensures DigitRunEnd(sign + whole + tail, |sign|) == |sign| + |whole|
  {
    WholeDigits(sign, whole, tail);
    WholeStops(sign, whole, tail);
    DigitRunEndAt(sign + whole + tail, |sign|, |sign| + |whole|);
  }

  lemma WholeSlice(sign: string, whole: string, tail: string)
    ensures (sign + whole + tail)[|sign|..|sign| + |whole|] == whole
  {
    var t := sign + whole + tail;
    forall k | 0 <= k < |whole|
      ensures t[|sign|..|sign| + |whole|][k] == whole[k]
    {
      assert t[|sign| + k] == whole[k];
    }
  }

  lemma WholeDigits(sign: string, whole: string, tail: string)
    requires AllDigits(whole)
    ensures var t := sign + whole + tail;
      forall k :: |sign| <= k < |sign| + |whole| ==> IsDigit(t[k])
  {
    var t := sign + whole + tail;
    forall k | |sign| <= k < |sign| + |whole|
      ensures IsDigit(t[k])
    {
      assert t[k] == whole[k - |sign|];
    }
  }

  lemma WholeStops(sign: string, whole: string, tail: string)
    requires tail == [] || !IsDigit(tail[0])
    ensures var t := sign + whole + tail;
      |sign| + |whole| == |t| || !IsDigit(t[|sign| + |whole|])
  {
    if tail != [] {
      assert (sign + whole + tail)[|sign| + |whole|] == tail[0];
    }
  }

  /** After the point, the digit run is the fraction and reaches the end. */
  lemma FractionLayout(head: string, fraction: string)
    requires AllDigits(fraction)
    ensures var t := head + "." + fraction;
      FractionEnd(t, |head|) == |t| && t[|head| + 1..] == fraction
  {
    var t := head + "." + fraction;
    var j := |head|;
    assert t[j] == '.';
    assert forall k :: j + 1 <= k < |t| ==> t[k] == fraction[k - j - 1];
    DigitRunEndAt(t, j + 1, |t|);
    assert t[j + 1..] == fraction;
  }

  lemma MagnitudeOfDigits(t: string, i: nat, j: nat, whole: string, fraction: string)
    requires i <= j <= |t| && AllDigits(whole) && AllDigits(fraction) && whole != []
    requires DigitRunEnd(t, i) == j && t[i..j] == whole
    requires FractionEnd(t, j) == |t| && (fraction != [] ==> j < |t| && t[j + 1..|t|] == fraction)
    requires fraction == [] ==> j == |t|
    ensures Magnitude(t, i) == Some(NatValue(whole) as real + FractionValue(fraction))
  {
    assert Exponent(t, |t|) == Some(0);
  }

  /** Four zero-padded digits after the point stand for that many ten-thousandths. */
  lemma PadFourFraction(r: nat)
    requires r < 10000
    ensures FractionValue(PadDigits(r, 4)) == r as real / 10000.0
  {
    var r1 := r / 10;
    var r2 := r1 / 10;
    var r3 := r2 / 10;
    assert r3 < 10 && r3 % 10 == r3 && r3 / 10 == 0;
    var d0, d1, d2, d3 := DigitChar(r3), DigitChar(r2 % 10), DigitChar(r1 % 10), DigitChar(r % 10);
    assert PadDigits(r3, 1) == [d0];
    assert PadDigits(r2, 2) == [d0, d1];
    assert PadDigits(r1, 3) == [d0, d1, d2];
    var s := PadDigits(r, 4);
    assert s == [d0, d1, d2, d3];
    assert FractionValue([d3]) == (r % 10) as real / 10.0;
    assert FractionValue([d2, d3]) == ((r1 % 10) as real + FractionValue([d3])) / 10.0 by {
      assert [d2, d3][1..] == [d3];
    }
    assert FractionValue([d1, d2, d3]) == ((r2 % 10) as real + FractionValue([d2, d3])) / 10.0 by {
      assert [d1, d2, d3][1..] == [d2, d3];
    }
    assert FractionValue(s) == (r3 as real + FractionValue([d1, d2, d3])) / 10.0 by {
      assert s[1..] == [d1, d2, d3];
    }
    assert r == ((r3 * 10 + r2 % 10) * 10 + r1 % 10) * 10 + r % 10;
  }

  /** Reading back what `{:.4f}` wrote never fails and gives the value rounded
      to four decimals. */
  lemma FormatThenParse(x: real)
    ensures ParseFloat(Format4(x)) == Some(Fixed4(x))
  {
    var n := Units4(x);
    var whole, fraction := NatDigits(n / 10000), PadDigits(n % 10000, 4);
    FormatIsDecimal(x);
    ParseDecimalText(x < 0.0, whole, fraction);
    FixedIsDecimalValue(x);
  }

  lemma FormatIsDecimal(x: real)
    ensures Format4(x) == DecimalText(x < 0.0, NatDigits(Units4(x) / 10000), PadDigits(Units4(x) % 10000, 4))
  {
  }

  lemma FixedIsDecimalValue(x: real)
    ensures Fixed4(x) == DecimalValue(x < 0.0, NatDigits(Units4(x) / 10000), PadDigits(Units4(x) % 10000, 4))
  {
    var n := Units4(x);
    var q, r := n / 10000, n % 10000;
    NatDigitsValue(q);
    PadFourFraction(r);
    assert q as real + r as real / 10000.0 == n as real / 10000.0;
  }

  /** What `{:.4f}` writes is a sign, digits, a point and four digits: no
      blank, colon or newline, and a digit at the end. */
  lemma FormatShape(x: real)
    ensures var f := Format4(x);
      |f| >= 6 && IsDigit(f[|f| - 1]) && (f[0] == '-' || IsDigit(f[0])) &&
      forall i :: 0 <= i < |f| ==> IsDigit(f[i]) || f[i] == '-' || f[i] == '.'
  {
    var n := Units4(x);
    var sign := if x < 0.0 then "-" else "";
    var whole, fraction := NatDigits(n / 10000), PadDigits(n % 10000, 4);
    var f := Format4(x);
    assert f == sign + whole + "." + fraction;
    forall i | 0 <= i < |f|
      ensures IsDigit(f[i]) || f[i] == '-' || f[i] == '.'
    {
      if i < |sign| {
      } else if i < |sign| + |whole| {
        assert f[i] == whole[i - |sign|];
      } else if i > |sign| + |whole| {
        assert f[i] == fraction[i - |sign| - |whole| - 1];
      }
    }
    assert f[|f| - 1] == fraction[3];
    if sign == [] {
      assert f[0] == whole[0];
    }
  }
}
