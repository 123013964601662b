/**
  `strconv.FormatFloat(v, 'f', 6, 64)`: a float rendered in plain decimal
  notation with exactly six digits after the point. The value is taken exactly
  (as a real) and rounded to the nearest millionth, a tie going to the even
  neighbour; the sign is printed whenever the value is negative, even when the
  rounded digits are all zero.
 */
module FixedFormat {
  import opened Wrappers

  /** Units of the last printed digit per unit of the value. */
  const Scale: nat := 1000000

  function Pow10(k: nat): (p: nat)
    ensures p >= 1
  {
    if k == 0 then 1 else 10 * Pow10(k - 1)
  }

  function Abs(v: real): (a: real)
    ensures a >= 0.0
    ensures a == v || a == -v
  {
    if v < 0.0 then -v else v
  }

  /**
    The integer nearest to `x`; of two equally near ones, the even one.
   */
  function RoundHalfEven(x: real): (q: nat)
    requires x >= 0.0
    ensures q as real - 0.5 <= x <= q as real + 0.5
    ensures (x == q as real - 0.5 || x == q as real + 0.5) ==> q % 2 == 0
  {
    var f := x.Floor;
    var frac := x - f as real;
    if frac > 0.5 || (frac == 0.5 && f % 2 == 1) then f + 1 else f
  }

  predicate IsDigit(c: char) {
    '0' <= c <= '9'
  }

  predicate AllDigits(s: string) {
    forall i :: 0 <= i < |s| ==> IsDigit(s[i])
  }

  function DigitChar(d: nat): (c: char)
    requires d < 10
    ensures IsDigit(c)
  {
    ('0' as int + d) as char
  }

  function DigitValue(c: char): (d: nat)
    requires IsDigit(c)
    ensures d < 10
  {
    c as int - '0' as int
  }

  /** The value of a string of decimal digits, most significant first. */
  function ValueOf(s: string): nat
    requires AllDigits(s)
  {
    if |s| == 0 then 0 else ValueOf(s[..|s| - 1]) * 10 + DigitValue(s[|s| - 1])
  }

  /**
    `n` in decimal with no leading zero: "0" for zero, otherwise a string
    whose first digit is not '0'.
   */
  function Decimal(n: nat): (s: string)
    ensures |s| >= 1 && AllDigits(s)
    ensures s[0] == '0' <==> n == 0
    ensures n == 0 ==> s == "0"
  {
    if n < 10 then [DigitChar(n)] else Decimal(n / 10) + [DigitChar(n % 10)]
  }

  /** `n` in exactly `width` decimal digits, padded with leading zeros. */
  function Padded(n: nat, width: nat): (s: string)
    requires n < Pow10(width)
    ensures |s| == width && AllDigits(s)
  {
    if width == 0 then "" else Padded(n / 10, width - 1) + [DigitChar(n % 10)]
  }

  /** The string with its leading minus, if any, removed. */
  function Unsigned(s: string): string {
    if |s| > 0 && s[0] == '-' then s[1..] else s
  }

  /** Digits, a point, then exactly six digits. */
  predicate IsFixedBody(b: string) {
    && |b| >= 8
    && b[|b| - 7] == '.'
    && AllDigits(b[..|b| - 7])
    && AllDigits(b[|b| - 6..])
  }

  /** The shape `-?[0-9]+\.[0-9]{6}`: optional minus, digits, a point, six digits. */
  predicate IsFixedSix(s: string) {
    IsFixedBody(Unsigned(s))
  }

  /** A fixed-point number: a sign, the whole part and the millionths below it. */
  datatype Fixed = Fixed(negative: bool, whole: nat, millionths: nat)

  /** Reads back a string of the `IsFixedSix` shape; anything else is `None`. */
  function ParseFixed(s: string): (r: Option<Fixed>)
    ensures r.Some? <==> IsFixedSix(s)
  {
    var b := Unsigned(s);
    if IsFixedBody(b) then
      Some(Fixed(|s| > 0 && s[0] == '-', ValueOf(b[..|b| - 7]), ValueOf(b[|b| - 6..])))
    else
      None
  }

  /** An optional minus, the whole part, a point and the fraction digits. */
  function Render(negative: bool, whole: string, frac: string): string {
    (if negative then "-" else "") + (whole + "." + frac)
  }

  /** Where the parts of a rendered body sit. */
  lemma RenderBody(whole: string, frac: string)
    requires |whole| >= 1 && AllDigits(whole)
    requires |frac| == 6 && AllDigits(frac)
    ensures var b := whole + "." + frac;
      IsFixedBody(b) && b[..|b| - 7] == whole && b[|b| - 6..] == frac
  {
    var b := whole + "." + frac;
    assert b[..|b| - 7] == whole;
    assert b[|b| - 6..] == frac;
  }

  /** The minus of a rendering is there exactly when asked for, and comes off cleanly. */
  lemma RenderSign(negative: bool, whole: string, frac: string)
    requires |whole| >= 1 && IsDigit(whole[0])
    ensures var s := Render(negative, whole, frac);
      Unsigned(s) == whole + "." + frac && (|s| > 0 && s[0] == '-') == negative
  {
    var b := whole + "." + frac;
    assert b[0] == whole[0];
    if negative {
      assert Render(negative, whole, frac)[1..] == b;
    } else {
      assert Render(negative, whole, frac) == b;
    }
  }

  /** The value in millionths, rounded half to even: what six decimals can carry. */
  function Millionths(v: real): nat {
    RoundHalfEven(Abs(v) * Scale as real)
  }

  /** The decimal string `FormatFloat(v, 'f', 6, 64)` gives for the value `v`. */
  function FormatFixed6(v: real): (s: string)
    ensures IsFixedSix(s)
  {
    var q := Millionths(v);
    assert Pow10(6) == Scale;
    var whole := Decimal(q / Scale);
    var frac := Padded(q % Scale, 6);
    RenderBody(whole, frac);
    RenderSign(v < 0.0, whole, frac);
    Render(v < 0.0, whole, frac)
  }

  /** Reading back the decimal rendering of `n` gives `n`. */
  lemma {:induction false} ValueOfDecimal(n: nat)
    ensures ValueOf(Decimal(n)) == n
  {
    if n >= 10 {
      ValueOfDecimal(n / 10);
      var s := Decimal(n);
      assert s[..|s| - 1] == Decimal(n / 10);
    } else {
      assert Decimal(n)[..0] == "";
    }
  }

  /** Reading back the padded rendering of `n` gives `n`. */
  lemma {:induction false} ValueOfPadded(n: nat, width: nat)
    requires n < Pow10(width)
    ensures ValueOf(Padded(n, width)) == n
  {
    if width > 0 {
      ValueOfPadded(n / 10, width - 1);
      var s := Padded(n, width);
      assert s[..|s| - 1] == Padded(n / 10, width - 1);
    }
  }

  /** Round trip of `Render`: the sign and the value of the digits come back. */
  lemma ParseRender(negative: bool, whole: string, frac: string)
    requires |whole| >= 1 && AllDigits(whole)
    requires |frac| == 6 && AllDigits(frac)
    ensures ParseFixed(Render(negative, whole, frac))
         == Some(Fixed(negative, ValueOf(whole), ValueOf(frac)))
  {
    RenderBody(whole, frac);
    RenderSign(negative, whole, frac);
    var s := Render(negative, whole, frac);
    var b := Unsigned(s);
    assert b[..|b| - 7] == whole;
    assert b[|b| - 6..] == frac;
    assert IsFixedBody(b);
    assert ParseFixed(s) == Some(Fixed(|s| > 0 && s[0] == '-', ValueOf(b[..|b| - 7]), ValueOf(b[|b| - 6..])));
  }

  /**
    Round trip: the formatted value reads back as its sign and its millionths
    rounded half to even, split into whole units and the six decimals, so the
    string carries exactly that much of the value.
   */
  lemma ParseFormatFixed6(v: real)
    ensures ParseFixed(FormatFixed6(v)) == Some(Fixed(v < 0.0, Millionths(v) / Scale, Millionths(v) % Scale))
  {
    var q := Millionths(v);
    assert Pow10(6) == Scale;
    ValueOfDecimal(q / Scale);
    ValueOfPadded(q % Scale, 6);
    ParseRender(v < 0.0, Decimal(q / Scale), Padded(q % Scale, 6));
  }

  /**
    Two values print the same exactly when they have the same sign and round
    to the same number of millionths. In particular the key of a number
    depends on nothing but its value.
   */
  lemma FormatFixed6Equal(a: real, b: real)
    ensures FormatFixed6(a) == FormatFixed6(b) <==>
      (a < 0.0 <==> b < 0.0) && Millionths(a) == Millionths(b)
  {
    ParseFormatFixed6(a);
    ParseFormatFixed6(b);
    var qa, qb := Millionths(a), Millionths(b);
    if FormatFixed6(a) == FormatFixed6(b) {
      assert qa == (qa / Scale) * Scale + qa % Scale;
      assert qb == (qb / Scale) * Scale + qb % Scale;
    }
  }

  /**
    The rendering of a value, given its rounded millionths and their two
    printed parts. The worked examples below go through this lemma, and
    compute their digits and renderings in lemmas of their own, so that each
    proof unfolds the formatting functions on few literals at a time.
   */
  lemma FormatFixed6Of(v: real, q: nat, whole: string, frac: string)
    requires Millionths(v) == q
    requires q % Scale < Pow10(6)
    requires Decimal(q / Scale) == whole && Padded(q % Scale, 6) == frac
    ensures FormatFixed6(v) == Render(v < 0.0, whole, frac)
  {
  }

  /** An integral value gets six zero decimals. */
  lemma FormatFixed6Integral()
    ensures FormatFixed6(3.0) == "3.000000"
  {
    assert Millionths(3.0) == 3000000 by {
      assert Abs(3.0) * Scale as real == 3000000.0;
    }
    DigitsOfIntegral();
    FormatFixed6Of(3.0, 3000000, "3", "000000");
    RenderIntegral();
  }

  lemma DigitsOfIntegral()
    ensures Pow10(6) == 1000000 && Decimal(3) == "3" && Padded(0, 6) == "000000"
  {
  }

  lemma RenderIntegral()
    ensures Render(false, "3", "000000") == "3.000000"
  {
  }

  /** A negative fractional value keeps its sign and is padded to six decimals. */
  lemma FormatFixed6Negative()
    ensures FormatFixed6(-2.25) == "-2.250000"
  {
    assert Millionths(-2.25) == 2250000 by {
      assert Abs(-2.25) * Scale as real == 2250000.0;
    }
    DigitsOfNegative();
    FormatFixed6Of(-2.25, 2250000, "2", "250000");
    RenderNegative();
  }

  lemma DigitsOfNegative()
    ensures Pow10(6) == 1000000 && Decimal(2) == "2" && Padded(250000, 6) == "250000"
  {
    assert Padded(0, 0) == "";
    assert Padded(2, 1) == "2";
    assert Padded(25, 2) == "25";
    assert Padded(250, 3) == "250";
    assert Padded(2500, 4) == "2500";
    assert Padded(25000, 5) == "25000";
  }

  lemma RenderNegative()
    ensures Render(true, "2", "250000") == "-2.250000"
  {
  }

  /** 1/128 = 0.0078125 lies exactly between 0.007812 and 0.007813: the even one wins. */
  lemma FormatFixed6Tie()
    ensures FormatFixed6(0.0078125) == "0.007812"
  {
    assert Millionths(0.0078125) == 7812 by {
      assert Abs(0.0078125) * Scale as real == 7812.5;
      assert RoundHalfEven(7812.5) == 7812;
    }
    DigitsOfTie();
    FormatFixed6Of(0.0078125, 7812, "0", "007812");
    RenderTie();
  }

  lemma DigitsOfTie()
    ensures Pow10(6) == 1000000 && Decimal(0) == "0" && Padded(7812, 6) == "007812"
  {
    assert Padded(0, 0) == "";
    assert Padded(0, 1) == "0";
    assert Padded(0, 2) == "00";
    assert Padded(7, 3) == "007";
    assert Padded(78, 4) == "0078";
    assert Padded(781, 5) == "00781";
  }

  lemma RenderTie()
    ensures Render(false, "0", "007812") == "0.007812"
  {
  }
}
