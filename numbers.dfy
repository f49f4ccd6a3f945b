/** Exact-real stand-ins for the float operations the dashboard applies:
    numpy's round-half-to-even (`Series.round`) and Python's `%.2f` rendering. */
module Numbers {

  datatype Option<+T> = None | Some(value: T)

  /** The integer nearest to `y`; of two equally near integers, the even one
      (numpy's `rint`, which `Series.round` uses). */
  function RoundHalfEven(y: real): (n: int)
    ensures n as real - y <= 0.5 && y - n as real <= 0.5
    ensures n as real - y == 0.5 || y - n as real == 0.5 ==> n % 2 == 0
  {
    var f := y.Floor;
    var d := y - f as real;
    if d < 0.5 then f
    else if d > 0.5 then f + 1
    else if f % 2 == 0 then f
    else f + 1
  }

  /** `x.round(2)`: a multiple of 0.01 within half a hundredth of `x`. */
  function Round2(x: real): (r: real)
    ensures -0.005 <= r - x <= 0.005
    ensures (r * 100.0).Floor as real == r * 100.0
  {
    RoundHalfEven(x * 100.0) as real / 100.0
  }

  /** `x.round(0)`: a whole number within one half of `x`. */
  function Round0(x: real): (r: real)
    ensures -0.5 <= r - x <= 0.5
    ensures r.Floor as real == r
  {
    RoundHalfEven(x) as real
  }

  lemma RoundHalfEvenWhole(k: int)
    ensures RoundHalfEven(k as real) == k
  {
  }

  /** Rounding an already rounded value changes nothing, so the `%.2f` of
      line 139 shows exactly the value stored by line 42. */
  lemma Round2Idempotent(x: real)
    ensures Round2(Round2(x)) == Round2(x)
  {
    var n := RoundHalfEven(x * 100.0);
    assert Round2(x) * 100.0 == n as real;
    RoundHalfEvenWhole(n);
  }

  predicate IsDigit(c: char) { '0' <= c <= '9' }

  predicate AllDigits(s: string) { forall i :: 0 <= i < |s| ==> IsDigit(s[i]) }

  function DigitChar(d: nat): (c: char)
    requires d < 10
    ensures IsDigit(c) && c as int - '0' as int == d
  {
    (d + '0' as int) as char
  }

  /** Decimal digits of `n`, most significant first, without leading zeros. */
  function Decimal(n: nat): (s: string)
    ensures |s| >= 1 && AllDigits(s)
    ensures n >= 10 ==> s[0] != '0'
  {
    if n < 10 then [DigitChar(n)] else Decimal(n / 10) + [DigitChar(n % 10)]
  }

  /** The number a string of decimal digits denotes. */
  function DigitsValue(s: string): nat
    requires AllDigits(s)
  {
    if s == [] then 0
    else DigitsValue(s[..|s| - 1]) * 10 + (s[|s| - 1] as int - '0' as int)
  }

  lemma {:induction false} DecimalRoundTrip(n: nat)
    ensures DigitsValue(Decimal(n)) == n
  {
    if n >= 10 {
      var s := Decimal(n);
      assert s[..|s| - 1] == Decimal(n / 10);
      DecimalRoundTrip(n / 10);
    }
  }

  /** The two digits of a hundredths count below one hundred. */
  function Cents(r: nat): (s: string)
    requires r < 100
    ensures |s| == 2 && AllDigits(s)
  {
    [DigitChar(r / 10), DigitChar(r % 10)]
  }

  lemma CentsValue(r: nat)
    requires r < 100
    ensures DigitsValue(Cents(r)) == r
  {
    var s := Cents(r);
    assert s[..1][..0] == [];
    assert DigitsValue(s[..1]) == r / 10;
  }

  /** The digits of a hundredths count `m`: its whole part, a point and two
      more digits. */
  function Unsigned(m: nat): (s: string)
    ensures |s| >= 4 && s[|s| - 3] == '.' && IsDigit(s[0])
  {
    Decimal(m / 100) + "." + Cents(m % 100)
  }

  /** Python's `f"{x:.2f}"`: an optional minus sign, the whole part, a point
      and two digits of `x` rounded half-to-even at the hundredths. */
  function FormatFixed2(x: real): (s: string)
    ensures |s| >= 4 && s[|s| - 3] == '.'
    ensures s[0] == '-' <==> x < 0.0
  {
    var n := RoundHalfEven(x * 100.0);
    var m: nat := if n < 0 then -n else n;
    (if x < 0.0 then "-" else "") + Unsigned(m)
  }

  /** Reads back a string of the shape FormatFixed2 writes. */
  function ParseFixed2(s: string): Option<real>
  {
    var negative := |s| > 0 && s[0] == '-';
    var body := if negative then s[1..] else s;
    var k := |body| - 3;
    if k < 1 || body[k] != '.' || !AllDigits(body[..k]) || !AllDigits(body[k + 1..]) then None
    else
      var magnitude := DigitsValue(body[..k]) as real + DigitsValue(body[k + 1..]) as real / 100.0;
      Some(if negative then -magnitude else magnitude)
  }

  /** The two digit runs of `Unsigned(m)` denote `m` hundredths. */
  lemma UnsignedParts(m: nat)
    ensures var s := Unsigned(m); var k := |s| - 3;
      && AllDigits(s[..k]) && AllDigits(s[k + 1..])
      && DigitsValue(s[..k]) as real + DigitsValue(s[k + 1..]) as real / 100.0 == m as real / 100.0
  {
    var s := Unsigned(m);
    var k := |s| - 3;
    assert k == |Decimal(m / 100)|;
    assert s[..k] == Decimal(m / 100);
    assert s[k + 1..] == Cents(m % 100);
    DecimalRoundTrip(m / 100);
    CentsValue(m % 100);
    HundredthsSplit(m);
  }

  lemma ParseUnsigned(m: nat)
    ensures ParseFixed2(Unsigned(m)) == Some(m as real / 100.0)
  {
    UnsignedParts(m);
  }

  lemma ParseNegative(m: nat)
    ensures ParseFixed2("-" + Unsigned(m)) == Some(-(m as real / 100.0))
  {
    var s := "-" + Unsigned(m);
    assert s[1..] == Unsigned(m);
    UnsignedParts(m);
  }

  lemma HundredthsSplit(m: nat)
    ensures (m / 100) as real + (m % 100) as real / 100.0 == m as real / 100.0
  {
    assert m == (m / 100) * 100 + m % 100;
  }

  lemma RoundHalfEvenSign(y: real)
    ensures y < 0.0 ==> RoundHalfEven(y) <= 0
    ensures y >= 0.0 ==> RoundHalfEven(y) >= 0
  {
  }

  /** The rendered text denotes exactly the value rounded to two decimals. */
  lemma FormatFixed2RoundTrip(x: real)
    ensures ParseFixed2(FormatFixed2(x)) == Some(Round2(x))
  {
    var n := RoundHalfEven(x * 100.0);
    RoundHalfEvenSign(x * 100.0);
    assert Round2(x) == n as real / 100.0;
    if x < 0.0 {
      var m: nat := -n;
      assert FormatFixed2(x) == "-" + Unsigned(m);
      ParseNegative(m);
    } else {
      var m: nat := n;
      assert FormatFixed2(x) == Unsigned(m);
      ParseUnsigned(m);
    }
  }
}
