/**
 The adaptive jitter estimator, over exact reals: its two running updates are the weighted mean and
 variance of everything counted so far, and its target covers nine tenths of that weight.
 */
module Jitter {
  import opened Reals

  // ---------------------------------------------------------------- exponential weights

  /** 0.98^k: how much is left of a weight after k further intervals. */
  function Decay(k: nat): (d: real)
    ensures d > 0.0
  {
    if k == 0 then 1.0 else 0.98 * Decay(k - 1)
  }

  /** The weight of point i after n counted intervals; point 0 is the initial estimate. */
  function Weight(n: nat, i: nat): real {
    if i == 0 then Decay(n) else if i <= n then 0.02 * Decay(n - i) else 0.0
  }

  function Weights(n: nat): nat -> real {
    (i: nat) => Weight(n, i)
  }

  /** The weighted sum of f over the points of h. */
  function Sum(h: seq<real>, w: nat -> real, f: real -> real): real {
    if h == [] then 0.0
    else Sum(h[..|h| - 1], w, f) + w(|h| - 1) * f(h[|h| - 1])
  }

  function Sq(d: real): real {
    d * d
  }

  function Value(): real -> real { x => x }
  function One(): real -> real { x => 1.0 }
  function Gap2(c: real): real -> real { x => Sq(x - c) }
  function Affine(a: real, b: real): real -> real { x => a * x + b }
  function Times(a: real, f: real -> real): real -> real { x => a * f(x) }
  function Over(t: real): real -> real { x => if x > t then 1.0 else 0.0 }

  // The batch statistics of a history of one initial point and |h| - 1 counted intervals.

  function Mean(h: seq<real>): real
    requires h != []
  {
    Sum(h, Weights(|h| - 1), Value())
  }

  function Variance(h: seq<real>): real
    requires h != []
  {
    Sum(h, Weights(|h| - 1), Gap2(Mean(h)))
  }

  /** The share of the weight that lies above `t`. */
  function ShareAbove(h: seq<real>, t: real): real
    requires h != []
  {
    Sum(h, Weights(|h| - 1), Over(t))
  }

  // ---------------------------------------------------------------- products of reals

  lemma Square(a: real)
    ensures Sq(a) >= 0.0
    ensures a != 0.0 ==> Sq(a) > 0.0
  {
    ProductSign(a, a, Sq(a));
  }

  // ---------------------------------------------------------------- weighted sums, for any weights

  lemma SumLast(h: seq<real>, x: real, w: nat -> real, f: real -> real)
    ensures Sum(h + [x], w, f) == Sum(h, w, f) + w(|h|) * f(x)
  {
    SumUnfold(h + [x], h, |h|, x, w, f, w(|h|), f(x));
  }

  lemma SumUnfold(all: seq<real>, h: seq<real>, k: nat, x: real, w: nat -> real, f: real -> real, u: real, y: real)
    requires all == h + [x] && k == |h| && u == w(k) && y == f(x)
    ensures Sum(all, w, f) == Sum(h, w, f) + u * y
  {
    assert all[..k] == h && all[k] == x;
  }

  lemma RescaleStep(a: real, s: real, t: real, v: real, w: real, y: real)
    requires s == a * t && v == a * w
    ensures s + v * y == a * (t + w * y)
  {
    assert v * y == a * (w * y);
    assert a * (t + w * y) == a * t + a * (w * y);
  }

  lemma {:induction false} SumRescale(h: seq<real>, v: nat -> real, w: nat -> real, a: real, f: real -> real)
    requires forall i: nat | i < |h| :: v(i) == a * w(i)
    ensures Sum(h, v, f) == a * Sum(h, w, f)
  {
    if h != [] {
      var k := |h| - 1;
      SumRescale(h[..k], v, w, a, f);
      RescaleStep(a, Sum(h[..k], v, f), Sum(h[..k], w, f), v(k), w(k), f(h[k]));
    }
  }

  lemma SumStep(w: real, f: real, g: real, k: real, sf: real, sg: real, sk: real)
    requires f == g + k && sf == sg + sk
    ensures sf + w * f == (sg + w * g) + (sk + w * k)
  {
    assert w * f == w * g + w * k;
  }

  lemma {:induction false} SumAdd(h: seq<real>, w: nat -> real, f: real -> real, g: real -> real, k: real -> real)
    requires forall x :: f(x) == g(x) + k(x)
    ensures Sum(h, w, f) == Sum(h, w, g) + Sum(h, w, k)
  {
    if h != [] {
      var i := |h| - 1;
      var init, x := h[..i], h[i];
      SumAdd(init, w, f, g, k);
      SumStep(w(i), f(x), g(x), k(x), Sum(init, w, f), Sum(init, w, g), Sum(init, w, k));
    }
  }

  lemma ScaleStep(w: real, x: real, y: real, a: real, sy: real, sx: real)
    requires y == a * x && sy == a * sx
    ensures sy + w * y == a * (sx + w * x)
  {
    assert w * y == a * (w * x);
    assert a * (sx + w * x) == a * sx + a * (w * x);
  }

  lemma {:induction false} SumScale(h: seq<real>, w: nat -> real, a: real, f: real -> real)
    ensures Sum(h, w, Times(a, f)) == a * Sum(h, w, f)
  {
    if h != [] {
      var i := |h| - 1;
      var g, x := Times(a, f), h[i];
      SumScale(h[..i], w, a, f);
      ScaleStep(w(i), f(x), g(x), a, Sum(h[..i], w, g), Sum(h[..i], w, f));
    }
  }

  lemma SumAffine(h: seq<real>, w: nat -> real, a: real, b: real)
    ensures Sum(h, w, Affine(a, b)) == a * Sum(h, w, Value()) + b * Sum(h, w, One())
  {
    forall x ensures Affine(a, b)(x) == Times(a, Value())(x) + Times(b, One())(x) {
    }
    SumAdd(h, w, Affine(a, b), Times(a, Value()), Times(b, One()));
    SumScale(h, w, a, Value());
    SumScale(h, w, b, One());
  }

  ghost predicate Positive(w: nat -> real, n: nat) {
    forall i: nat | i < n :: w(i) > 0.0
  }

  lemma DominatedStep(w: real, k: real, s: real, t: real, f: real, g: real)
    requires w > 0.0 && k * s <= t && k * f <= g
    ensures k * (s + w * f) <= t + w * g
  {
    TimesOrder(k * f, g, w);
    assert k * (s + w * f) == k * s + w * (k * f);
  }

  lemma {:induction false} SumDominated(h: seq<real>, w: nat -> real, k: real, f: real -> real, g: real -> real)
    requires Positive(w, |h|)
    requires forall x :: k * f(x) <= g(x)
    ensures k * Sum(h, w, f) <= Sum(h, w, g)
  {
    if h != [] {
      var i := |h| - 1;
      SumDominated(h[..i], w, k, f, g);
      DominatedStep(w(i), k, Sum(h[..i], w, f), Sum(h[..i], w, g), f(h[i]), g(h[i]));
    }
  }

  lemma {:induction false} SumNonNegative(h: seq<real>, w: nat -> real, f: real -> real)
    requires Positive(w, |h|)
    requires forall x :: f(x) >= 0.0
    ensures Sum(h, w, f) >= 0.0
  {
    if h != [] {
      Product(w(|h| - 1), f(h[|h| - 1]));
      SumNonNegative(h[..|h| - 1], w, f);
    }
  }

  /** A sum of non-negative terms that is not positive has no positive term. */
  lemma {:induction false} SumVanishes(h: seq<real>, w: nat -> real, f: real -> real, g: real -> real)
    requires Positive(w, |h|)
    requires forall x :: f(x) >= 0.0 && (f(x) == 0.0 ==> g(x) == 0.0)
    requires Sum(h, w, f) <= 0.0
    ensures Sum(h, w, f) == 0.0 && Sum(h, w, g) == 0.0
  {
    if h != [] {
      var k := |h| - 1;
      Product(w(k), f(h[k]));
      SumNonNegative(h[..k], w, f);
      SumVanishes(h[..k], w, f, g);
    }
  }

  // ---------------------------------------------------------------- the weights of the estimator

  lemma WeightsPositive(n: nat)
    ensures Positive(Weights(n), n + 1)
  {
    var w := Weights(n);
    forall i: nat | i < n + 1 ensures w(i) > 0.0 {
    }
  }

  /** A further interval enters with weight 0.02 and leaves 0.98 of everything before it. */
  lemma SumSnoc(h: seq<real>, x: real, f: real -> real)
    requires h != []
    ensures Sum(h + [x], Weights(|h|), f) == 0.98 * Sum(h, Weights(|h| - 1), f) + 0.02 * f(x)
  {
    NewestWeight(|h|);
    AppendWeighted(h, x, Weights(|h|), Weights(|h| - 1), f);
  }

  lemma NewestWeight(n: nat)
    requires n > 0
    ensures Weights(n)(n) == 0.02
    ensures forall i: nat | i < n :: Weights(n)(i) == 0.98 * Weights(n - 1)(i)
  {
    assert Decay(0) == 1.0;
  }

  lemma AppendWeighted(h: seq<real>, x: real, v: nat -> real, w: nat -> real, f: real -> real)
    requires v(|h|) == 0.02
    requires forall i: nat | i < |h| :: v(i) == 0.98 * w(i)
    ensures Sum(h + [x], v, f) == 0.98 * Sum(h, w, f) + 0.02 * f(x)
  {
    SumRescale(h, v, w, 0.98, f);
    SumLast(h, x, v, f);
    AppendStep(Sum(h + [x], v, f), Sum(h, v, f), Sum(h, w, f), v(|h|), f(x));
  }

  lemma AppendStep(total: real, s: real, t: real, u: real, y: real)
    requires total == s + u * y && s == 0.98 * t && u == 0.02
    ensures total == 0.98 * t + 0.02 * y
  {
    assert u * y == 0.02 * y;
  }

  lemma SinglePoint(x: real, f: real -> real)
    ensures Sum([x], Weights(0), f) == f(x)
  {
    SumLast([], x, Weights(0), f);
    assert [] + [x] == [x];
    assert Weights(0)(0) == 1.0;
  }

  lemma {:induction false} WeightsSumToOne(h: seq<real>)
    requires h != []
    ensures Sum(h, Weights(|h| - 1), One()) == 1.0
  {
    var k := |h| - 1;
    if k == 0 {
      SinglePoint(h[0], One());
      assert h == [h[0]];
    } else {
      WeightsSumToOne(h[..k]);
      assert h == h[..k] + [h[k]];
      SumSnoc(h[..k], h[k], One());
    }
  }

  // ---------------------------------------------------------------- mean and variance

  lemma CentreAlgebra(x: real, m: real, c: real, a: real, b: real)
    requires a == 2.0 * (m - c) && b == c * c - m * m
    ensures Gap2(c)(x) == Gap2(m)(x) + Affine(a, b)(x)
  {
    var cx, mx := c * x, m * x;
    assert a * x == 2.0 * mx - 2.0 * cx;
    assert Sq(x - c) == x * x - 2.0 * cx + c * c;
    assert Sq(x - m) == x * x - 2.0 * mx + m * m;
  }

  lemma SumAffineMean(h: seq<real>, a: real, b: real)
    requires h != []
    ensures Sum(h, Weights(|h| - 1), Affine(a, b)) == a * Mean(h) + b
  {
    SumAffine(h, Weights(|h| - 1), a, b);
    WeightsSumToOne(h);
    UnitWeight(b, Sum(h, Weights(|h| - 1), One()));
  }

  lemma UnitWeight(b: real, one: real)
    requires one == 1.0
    ensures b * one == b
  {
  }

  lemma SquaresLinear(h: seq<real>, m: real, c: real, a: real, b: real)
    requires h != [] && m == Mean(h) && a == 2.0 * (m - c) && b == c * c - m * m
    ensures Sum(h, Weights(|h| - 1), Gap2(c)) == Variance(h) + a * m + b
  {
    var w := Weights(|h| - 1);
    forall x ensures Gap2(c)(x) == Gap2(m)(x) + Affine(a, b)(x) {
      CentreAlgebra(x, m, c, a, b);
    }
    SumAdd(h, w, Gap2(c), Gap2(m), Affine(a, b));
    SumAffineMean(h, a, b);
  }

  lemma CentreTotal(m: real, c: real, d: real, a: real, b: real)
    requires d == m - c && a == 2.0 * d && b == c * c - m * m
    ensures a * m + b == Sq(d)
  {
    var mm, cm, cc := m * m, c * m, c * c;
    assert a * m == 2.0 * mm - 2.0 * cm;
    assert Sq(d) == mm - 2.0 * cm + cc;
  }

  /** The squares about any centre: the variance, and the square of the distance from the mean. */
  lemma SquaresAbout(h: seq<real>, c: real)
    requires h != []
    ensures Sum(h, Weights(|h| - 1), Gap2(c)) == Variance(h) + Sq(Mean(h) - c)
  {
    var m := Mean(h);
    var d := m - c;
    SquaresLinear(h, m, c, 2.0 * d, c * c - m * m);
    CentreTotal(m, c, d, 2.0 * d, c * c - m * m);
  }

  lemma UpdateAlgebra(v: real, m: real, x: real, d: real, c: real)
    requires d == x - m && c == m + 0.02 * d
    ensures 0.98 * (v + Sq(m - c)) + 0.02 * Sq(x - c) == (1.0 - 0.02) * (v + 0.02 * d * d)
  {
    assert x - c == 0.98 * d && m - c == -0.02 * d;
    assert (0.98 * d) * (0.98 * d) == 0.9604 * (d * d);
    assert (-0.02 * d) * (-0.02 * d) == 0.0004 * (d * d);
    assert 0.02 * d * d == 0.02 * (d * d);
  }

  /** The two running updates are exact: they give the batch mean and variance of the longer history. */
  lemma RunningUpdateIsExact(h: seq<real>, x: real)
    requires h != []
    ensures var d := x - Mean(h);
            && Mean(h + [x]) == Mean(h) + 0.02 * d
            && Variance(h + [x]) == (1.0 - 0.02) * (Variance(h) + 0.02 * d * d)
  {
    var m := Mean(h);
    SumSnoc(h, x, Value());
    var c := Mean(h + [x]);
    SumSnoc(h, x, Gap2(c));
    SquaresAbout(h, c);
    UpdateAlgebra(Variance(h), m, x, x - m, c);
  }
}
