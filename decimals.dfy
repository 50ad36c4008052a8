/** The part of Python's `decimal` module the core relies on: non-negative
    finite decimals as written (all digits and a count of fraction digits),
    the string constructor `Decimal(s)` for unsigned literals, and
    `quantize(Decimal("0.01"))` under the default context, whose rounding
    is ROUND_HALF_EVEN. Arithmetic on decimals is done on their exact values
    as Dafny reals. */
module Decimals {
  import opened Wrappers
  import opened Text

  /** A `Decimal` with sign 0, coefficient `coef` and exponent `-scale`:
      `Decimal("1234567.89")` is `Dec(123456789, 2)`, `Decimal("5.")` is
      `Dec(5, 0)`. */
  datatype Dec = Dec(coef: nat, scale: nat)

  function Pow10(n: nat): (r: nat)
    ensures r >= 1
  {
    if n == 0 then 1 else 10 * Pow10(n - 1)
  }

  /** The exact number a decimal stands for. */
  function Value(d: Dec): (r: real)
    ensures r >= 0.0
  {
    d.coef as real / Pow10(d.scale) as real
  }

  /** A decimal is zero exactly when its coefficient is. */
  lemma ValueZeroIff(d: Dec)
    ensures Value(d) == 0.0 <==> d.coef == 0
  {
    var c, p := d.coef as real, Pow10(d.scale) as real;
    assert Value(d) == c / p;
    QuotientZeroIff(c, p);
  }

  lemma QuotientZeroIff(c: real, p: real)
    requires c >= 0.0 && p >= 1.0
    ensures c / p == 0.0 <==> c == 0.0
  {
    assert (c / p) * p == c;
  }

  function DigitValue(c: char): nat
    requires IsDigit(c)
  {
    c as int - '0' as int
  }

  /** The number a string of decimal digits spells, most significant first. */
  function IntOf(s: string): nat
    requires AllDigits(s)
  {
    if s == [] then 0 else 10 * IntOf(s[..|s| - 1]) + DigitValue(s[|s| - 1])
  }

  /** Reading two digit strings one after the other shifts the first by
      the length of the second. */
  lemma {:induction false} IntOfAppend(a: string, b: string)
    requires AllDigits(a) && AllDigits(b)
    ensures AllDigits(a + b) && IntOf(a + b) == IntOf(a) * Pow10(|b|) + IntOf(b)
  {
    if b == [] {
      assert a + b == a;
    } else {
      var b', last := b[..|b| - 1], b[|b| - 1];
      var ab := a + b;
      assert ab[..|ab| - 1] == a + b' && ab[|ab| - 1] == last;
      IntOfAppend(a, b');
      var x, y, p := IntOf(a), IntOf(b'), Pow10(|b'|);
      assert IntOf(ab) == 10 * (x * p + y) + DigitValue(last);
      assert IntOf(b) == 10 * y + DigitValue(last) && Pow10(|b|) == 10 * p;
      ShiftDigit(x, p, y, DigitValue(last));
    }
  }

  lemma ShiftDigit(x: int, p: int, y: int, d: int)
    ensures 10 * (x * p + y) + d == x * (10 * p) + (10 * y + d)
  {
  }

  /** `Decimal(s)` for an unsigned literal without exponent: surrounding
      whitespace is ignored, and what remains must be digits with at most
      one `.` and at least one digit (`"5"`, `"5."`, `".5"`, `"5.25"`).
      Anything else makes the constructor raise, here `None`. */
  function ParseLiteral(s: string): Option<Dec>
  {
    ParseUnsigned(Strip(s))
  }

  /** `Decimal(t)` once the whitespace is gone. */
  function ParseUnsigned(t: string): Option<Dec>
  {
    var i := IndexOf(t, '.');
    var whole := t[..i];
    var fraction := if i < |t| then t[i + 1..] else [];
    if AllDigits(whole) && AllDigits(fraction) && |whole| + |fraction| > 0 then
      assert AllDigits(whole + fraction);
      Some(Dec(IntOf(whole + fraction), |fraction|))
    else
      None
  }

  /** `n` hundredths is `x` rounded to two fraction digits half-even:
      `100 * x` lies within half a unit of `n`, and at exactly half a unit
      `n` is the even neighbour (ROUND_HALF_EVEN). */
  predicate RoundsToCents(x: real, n: int)
  {
    var d := 100.0 * x - n as real;
    (-0.5 < d < 0.5) || ((d == 0.5 || d == -0.5) && n % 2 == 0)
  }

  /** `x.quantize(Decimal("0.01"))` as a whole number of hundredths: the
      one integer that rounds `100 * x` half-even. */
  function QuantizeCents(x: real): (n: int)
    ensures RoundsToCents(x, n)
    ensures forall m :: RoundsToCents(x, m) ==> m == n
  {
    var y := 100.0 * x;
    var f := y.Floor;
    var rest := y - f as real;
    if rest < 0.5 then f
    else if rest > 0.5 then f + 1
    else if f % 2 == 0 then f
    else f + 1
  }

}
