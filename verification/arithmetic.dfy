/** Facts about integer division that the primality test rests on. */
module Arithmetic {

  lemma DivMod(n: int, d: int)
    requires d > 0
    ensures n == d * (n / d) + n % d && 0 <= n % d < d
  {
  }

  lemma MulMono(a: int, b: int, c: int)
    requires a <= b && c >= 0
    ensures a * c <= b * c
  {
  }

  /** A multiple of `e` leaves no remainder when divided by `e`. */
  lemma MultipleMod(e: int, q: int)
    requires e > 0
    ensures (e * q) % e == 0
  {
    var n := e * q;
    DivMod(n, e);
    var k := q - n / e;
    assert e * k == n % e;
    if k >= 1 {
      MulMono(1, k, e);
    }
    if k <= -1 {
      MulMono(k, -1, e);
    }
  }

  /** An even number does not divide an odd one. */
  lemma EvenDoesNotDivideOdd(n: int, d: int)
    requires n % 2 == 1 && d > 0 && d % 2 == 0
    ensures n % d != 0
  {
    if n % d == 0 {
      DivMod(n, d);
      var q := n / d;
      var h := d / 2;
      assert d == 2 * h;
      assert n == (2 * h) * q;
      assert n == 2 * (h * q);
      MultipleMod(2, h * q);
    }
  }

  lemma ProductAtLeastSquare(d: int, e: int, i: int)
    requires 0 <= i <= d && i <= e
    ensures i * i <= d * e
  {
    MulMono(i, d, e);
    MulMono(i, e, i);
  }

  /** A divisor `d >= i` of a number below `i * i` leaves a cofactor below `i` that divides it too. */
  lemma SmallCofactor(n: int, d: int, i: int)
    requires 2 <= i <= d < n && n < i * i && n % d == 0
    ensures 2 <= n / d < i && n % (n / d) == 0
  {
    DivMod(n, d);
    var e := n / d;
    assert n == d * e;
    if e >= i {
      ProductAtLeastSquare(d, e, i);
    }
    if e <= 0 {
      MulMono(e, 0, d);
    }
    assert e != 1;
    assert n == e * d;
    MultipleMod(e, d);
  }
}
