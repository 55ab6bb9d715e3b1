/** Order and products of reals. Callers name their products, so that each fact here is about names. */
module Reals {

  lemma Product(a: real, b: real)
    ensures a >= 0.0 && b >= 0.0 ==> a * b >= 0.0
    ensures a > 0.0 && b > 0.0 ==> a * b > 0.0
  {
  }

  lemma TimesOrder(a: real, b: real, factor: real)
    requires factor > 0.0
    ensures a <= b ==> a * factor <= b * factor
    ensures a < b ==> a * factor < b * factor
  {
    var d := b - a;
    Product(d, factor);
    assert d * factor == b * factor - a * factor;
  }

  lemma ScaledOrder(a: real, b: real, factor: real, x: real, y: real)
    requires factor > 0.0 && a * factor == x && b * factor == y
    ensures b >= a <==> y >= x
    ensures a == b <==> x == y
  {
    TimesOrder(a, b, factor);
    TimesOrder(b, a, factor);
  }

  lemma ProductSign(a: real, b: real, p: real)
    requires p == a * b
    ensures a >= 0.0 && b >= 0.0 ==> p >= 0.0
    ensures a > 0.0 && b > 0.0 ==> p > 0.0
    ensures a < 0.0 && b < 0.0 ==> p > 0.0
  {
  }

  /** A part of d, given as a fraction, lies between zero and d. */
  lemma FractionOf(d: real, frac: real, part: real)
    requires 0.0 <= frac <= 1.0 && part == d * frac
    ensures d >= 0.0 ==> 0.0 <= part <= d
    ensures d <= 0.0 ==> d <= part <= 0.0
  {
    var e, rest := -d, 1.0 - frac;
    var other := d * rest;
    Product(d, frac);
    Product(d, rest);
    Product(e, frac);
    Product(e, rest);
    assert other == d - part;
    assert e * frac == -part;
    assert e * rest == -other;
  }
}
