/** Java's fixed-width integers and its integer division, as the column
    formatter uses them.  Dafny's `/` and `%` are Euclidean; Java's round
    toward zero, which differs for a negative dividend. */
module JavaArith {

  /** A Java `int`. */
  type Int32 = x: int | -0x8000_0000 <= x < 0x8000_0000

  /** A Java `long`. */
  type Int64 = x: int | -0x8000_0000_0000_0000 <= x < 0x8000_0000_0000_0000

  /** Java's `a / b` for a positive divisor: the quotient rounded toward zero. */
  function Div(a: int, b: int): (q: int)
    requires b > 0
    ensures 0 <= a ==> 0 <= q <= a
    ensures a < 0 ==> a <= q <= 0
  {
    if a >= 0 then NatDivBounds(a, b); a / b
    else NatDivBounds(-a, b); -((-a) / b)
  }

  lemma NatDivBounds(a: nat, b: int)
    requires b > 0
    ensures 0 <= a / b <= a && (a / b) * b <= a < (a / b) * b + b
  {
    var q := a / b;
    assert a == b * q + a % b;
    MulAtLeast(q, b);
  }

  /** A natural number times a positive number is at least the number. */
  lemma MulAtLeast(x: nat, y: int)
    requires y > 0
    ensures x * y >= x
  {
    assert x * y == x * (y - 1) + x;
    assert x * (y - 1) >= 0;
  }

  /** Java's `a % b` for a positive divisor: the remainder takes the sign of `a`. */
  function Rem(a: int, b: int): (r: int)
    requires b > 0
    ensures 0 <= a ==> 0 <= r < b
    ensures a < 0 ==> -b < r <= 0
  {
    DivTruncates(a, b);
    a - Div(a, b) * b
  }

  /** The quotient rounds toward zero: the remainder it leaves is smaller
      than the divisor and has the sign of the dividend. */
  lemma DivTruncates(a: int, b: int)
    requires b > 0
    ensures 0 <= a ==> 0 <= a - Div(a, b) * b < b
    ensures a < 0 ==> -b < a - Div(a, b) * b <= 0
  {
    if a >= 0 {
      NatDivBounds(a, b);
    } else {
      NatDivBounds(-a, b);
      MulNeg((-a) / b, b);
    }
  }

  /** 10 to the power `n`, the exact integer value of `Math.pow(10, n)`. */
  function Pow10(n: nat): (p: nat)
    ensures p >= 1
    ensures n >= 1 ==> p >= 10
  {
    if n == 0 then 1 else 10 * Pow10(n - 1)
  }

  lemma {:induction false} Pow10Add(m: nat, n: nat)
    ensures Pow10(m + n) == Pow10(m) * Pow10(n)
  {
    if n > 0 {
      Pow10Add(m, n - 1);
      MulTen(Pow10(m), Pow10(n - 1));
    }
  }

  lemma MulTen(v: int, p: int)
    ensures 10 * (v * p) == v * (10 * p)
  {
  }

  lemma MulNeg(a: int, p: int)
    ensures (-a) * p == -(a * p)
  {
  }

  /** A number below a * p, divided by p, is below a. */
  lemma DivBelow(x: nat, a: nat, p: nat)
    requires p > 0 && x < a * p
    ensures x / p < a
  {
    var q := x / p;
    assert x == p * q + x % p;
  }

  /** The quotient is determined by the division identity. */
  lemma DivUnique(a: int, d: int, q: int, r: int)
    requires d > 0 && 0 <= r < d && a == d * q + r
    ensures a / d == q && a % d == r
  {
    var k := q - a / d;
    assert d * k == a % d - r by {
      assert a == d * (a / d) + a % d;
      assert d * k == d * q - d * (a / d);
    }
  }

  /** Dividing twice by positive numbers is dividing once by their product. */
  lemma NatDivDiv(a: nat, b: nat, c: nat)
    requires b > 0 && c > 0
    ensures a / b / c == a / (b * c)
  {
    var q, r := a / b, a % b;
    var q2, r2 := q / c, q % c;
    assert b * r2 <= b * (c - 1) by {
      assert r2 <= c - 1;
    }
    assert a == (b * c) * q2 + (b * r2 + r) by {
      assert a == b * q + r;
      assert q == c * q2 + r2;
    }
    DivUnique(a, b * c, q2, b * r2 + r);
  }

  /** Dividing by 10^k is dividing by 10 and then by 10^(k-1). */
  lemma DivPow10Succ(x: nat, k: nat)
    requires k >= 1
    ensures x / Pow10(k) == x / 10 / Pow10(k - 1)
  {
    var p := Pow10(k - 1);
    assert Pow10(k) == 10 * p;
    NatDivDiv(x, 10, p);
  }

  /** Java's truncating division, repeated, also composes by the product. */
  lemma DivDiv(a: int, b: int, c: int)
    requires b > 0 && c > 0
    ensures Div(Div(a, b), c) == Div(a, b * c)
  {
    if a >= 0 {
      NatDivDiv(a, b, c);
    } else {
      NatDivDiv(-a, b, c);
    }
  }
}
