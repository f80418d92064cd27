/** The integer and rounding semantics of the Python built-ins the core uses:
    `<<` and `>>` on unbounded ints, `round()` on a number, `math.ceil(a / b)`. */
module PyNum {

  /** 2 to the power n. */
  function Pow2(n: nat): (r: nat)
    ensures r >= 1
  {
    if n == 0 then 1 else 2 * Pow2(n - 1)
  }

  /** Python `x << n`: multiplication by a power of two, never wrapping. */
  function Shl(x: int, n: nat): (r: int)
    ensures r == x * Pow2(n)
    ensures x >= 0 ==> r >= x
    ensures n > 0 ==> r % 2 == 0
  {
    if n == 0 then x
    else
      assert x * Pow2(n) == 2 * (x * Pow2(n - 1));
      x * Pow2(n)
  }

  /** Python `x >> n`: an arithmetic shift, which rounds toward minus infinity. */
  function Shr(x: int, n: nat): (r: int)
    ensures Pow2(n) * r <= x < Pow2(n) * (r + 1)
  {
    x / Pow2(n)
  }

  /** Python `round(x)` with one argument: the nearest integer, ties to the even one. */
  function RoundHalfEven(x: real): (r: int)
    ensures x - 0.5 <= r as real <= x + 0.5
    ensures (r as real == x - 0.5 || r as real == x + 0.5) ==> r % 2 == 0
  {
    var f := x.Floor;
    var d := x - f as real;
    if d < 0.5 then f
    else if d > 0.5 then f + 1
    else if f % 2 == 0 then f
    else f + 1
  }

  /** The two ensures of RoundHalfEven pin its result down: no other integer has them. */
  lemma RoundHalfEvenUnique(x: real, n: int)
    requires x - 0.5 <= n as real <= x + 0.5
    requires (n as real == x - 0.5 || n as real == x + 0.5) ==> n % 2 == 0
    ensures n == RoundHalfEven(x)
  {
  }

  /** Rounding an integer gives it back. */
  lemma RoundOfInteger(n: int)
    ensures RoundHalfEven(n as real) == n
  {
    RoundHalfEvenUnique(n as real, n);
  }

  /** Rounding is monotone. */
  lemma RoundMonotone(x: real, y: real)
    requires x <= y
    ensures RoundHalfEven(x) <= RoundHalfEven(y)
  {
  }

  /** Rounding a number that lies between two integers stays between them. */
  lemma RoundWithin(x: real, lo: int, hi: int)
    requires lo as real <= x <= hi as real
    ensures lo <= RoundHalfEven(x) <= hi
  {
    RoundMonotone(lo as real, x);
    RoundMonotone(x, hi as real);
    RoundOfInteger(lo);
    RoundOfInteger(hi);
  }

  /** Python `math.ceil(a / b)` for a positive divisor, without the float rounding. */
  function CeilDiv(a: int, b: int): (r: int)
    requires b > 0
    ensures (r - 1) * b < a <= r * b
  {
    -((-a) / b)
  }

  lemma {:induction false} ProductAtLeast(b: int, d: int)
    requires b > 0 && d >= 1
    ensures b * d >= b
  {
    if d > 1 {
      ProductAtLeast(b, d - 1);
      assert b * d == b * (d - 1) + b;
    }
  }

  /** A product leaves no remainder when divided by one of its factors. */
  lemma MultipleMod(base: int, n: int)
    requires base != 0
    ensures (base * n) % base == 0
  {
    var q := (base * n) / base;
    var r := (base * n) % base;
    var d := n - q;
    assert base * d == r by {
      assert base * n == base * q + r;
      assert base * n - base * q == base * (n - q);
    }
    if d > 0 && base > 0 {
      ProductAtLeast(base, d);
    } else if d < 0 && base > 0 {
      ProductAtLeast(base, -d);
    } else if d > 0 && base < 0 {
      ProductAtLeast(-base, d);
    } else if d < 0 && base < 0 {
      ProductAtLeast(-base, -d);
    }
  }
}
