/**
 * Amounts of money. Every amount the service stores is a `numeric(10,2)`
 * column, a C# `decimal` with two fractional digits, so an amount is modelled
 * exactly as a whole number of cents and every rounding step is explicit.
 */
module Money {

  /** An amount in cents: 12.34 is 1234. */
  type Cents = int

  /** 0.01m, the one-cent tolerance used by the settlement dead-zone and by the custom-split sum check. */
  const OneCent: Cents := 1

  /** Math.Abs */
  function Abs(x: int): (r: int)
    ensures r >= 0
    ensures r == x || r == -x
  {
    if x < 0 then -x else x
  }

  /** Math.Min */
  function Min(a: int, b: int): (r: int)
    ensures r <= a && r <= b
    ensures r == a || r == b
  {
    if a <= b then a else b
  }

  /**
   * `Math.Round(num / den, 2)` on amounts in cents: the quotient num/den
   * rounded to the nearest whole cent, a tie going to the even neighbour
   * (.NET's default MidpointRounding.ToEven).
   */
  function RoundHalfEven(num: int, den: int): (r: int)
    requires den > 0
    ensures 2 * Abs(r * den - num) <= den
    ensures 2 * Abs(r * den - num) == den ==> r % 2 == 0
  {
    var q, rem := num / den, num % den;
    assert num == q * den + rem && 0 <= rem < den;
    assert (q + 1) * den - num == den - rem;
    if 2 * rem < den then q
    else if 2 * rem > den then q + 1
    else if q % 2 == 0 then q
    else q + 1
  }

  /** The two properties of RoundHalfEven determine its result: any other quotient meeting them is the same. */
  lemma RoundHalfEvenUnique(num: int, den: int, r: int)
    requires den > 0
    requires 2 * Abs(r * den - num) <= den
    requires 2 * Abs(r * den - num) == den ==> r % 2 == 0
    ensures r == RoundHalfEven(num, den)
  {
    var q := RoundHalfEven(num, den);
    assert (r * den - num) - (q * den - num) == (r - q) * den;
    MulBounds(r - q, den);
  }

  lemma MulBounds(d: int, den: int)
    requires den > 0
    ensures d >= 1 ==> d * den >= den
    ensures d >= 2 ==> d * den >= 2 * den
    ensures d <= -1 ==> d * den <= -den
    ensures d <= -2 ==> d * den <= -2 * den
  {
    if d >= 1 {
      assert d * den == den + (d - 1) * den;
    } else if d <= -1 {
      assert d * den == -den - (-d - 1) * den;
    }
  }
}
