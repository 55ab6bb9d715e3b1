/**
 How much of a history lies above its mean plus k standard deviations: the bound that holds for every
 history, that no smaller bound does, and what single outliers do.
 */
module JitterCoverage {
  import opened Jitter
  import opened Reals

  ghost predicate IsSqrt(sqrt: real -> real) {
    forall v :: v >= 0.0 ==> sqrt(v) >= 0.0 && sqrt(v) * sqrt(v) == v
  }

  /** The mean and k standard deviations. */
  function Target(h: seq<real>, k: real, s: real): real
    requires h != []
  {
    Mean(h) + k * s
  }

  lemma VarianceNonNegative(h: seq<real>)
    requires h != []
    ensures Variance(h) >= 0.0
  {
    WeightsPositive(|h| - 1);
    forall x ensures Gap2(Mean(h))(x) >= 0.0 {
      Square(x - Mean(h));
    }
    SumNonNegative(h, Weights(|h| - 1), Gap2(Mean(h)));
  }

  lemma SquareOrder(a: real, b: real)
    requires b >= 0.0
    ensures a > b <==> a > 0.0 && Sq(a) > Sq(b)
  {
    var u, v, w := a - b, a + b, b - a;
    Product(u, v);
    Product(w, v);
    assert u * v == Sq(a) - Sq(b);
    assert w * v == -(u * v);
  }

  lemma ScaledSquare(k: real, a: real, b: real)
    requires b == k * a
    ensures Sq(b) == Sq(k) * Sq(a)
  {
    assert b * b == k * (a * b);
    assert a * b == k * (a * a);
    assert k * (k * (a * a)) == (k * k) * (a * a);
  }

  // ---------------------------------------------------------------- the bound

  /**
   One-sided coverage: with s the standard deviation, the weight above mean + k s is at most
   1 / (1 + k^2).
   */
  lemma OneSidedBound(h: seq<real>, k: real, s: real)
    requires h != [] && k >= 0.0 && s >= 0.0 && s * s == Variance(h)
    ensures (1.0 + Sq(k)) * ShareAbove(h, Target(h, k, s)) <= 1.0
  {
    if s == 0.0 {
      NoSpread(h, Mean(h));
    } else if k == 0.0 {
      AtMostAll(h, Mean(h));
    } else {
      WideBound(h, k, s, s / k);
    }
  }

  lemma AtMostAll(h: seq<real>, t: real)
    requires h != []
    ensures ShareAbove(h, t) <= 1.0
  {
    WeightsPositive(|h| - 1);
    SumDominated(h, Weights(|h| - 1), 1.0, Over(t), One());
    WeightsSumToOne(h);
  }

  lemma OnlyMeanIsCentral(m: real, x: real)
    ensures Gap2(m)(x) >= 0.0 && (Gap2(m)(x) == 0.0 ==> Over(m)(x) == 0.0)
  {
    Square(x - m);
  }

  /** Without spread, nothing lies above the mean. */
  lemma NoSpread(h: seq<real>, m: real)
    requires h != [] && m == Mean(h) && Variance(h) == 0.0
    ensures ShareAbove(h, m) == 0.0
  {
    forall x ensures Gap2(m)(x) >= 0.0 && (Gap2(m)(x) == 0.0 ==> Over(m)(x) == 0.0) {
      OnlyMeanIsCentral(m, x);
    }
    WeightsPositive(|h| - 1);
    SumVanishes(h, Weights(|h| - 1), Gap2(m), Over(m));
  }

  /** With d = s / k, what lies above m + k s is at least (1 + k^2) d away from m - d. */
  lemma WideBound(h: seq<real>, k: real, s: real, d: real)
    requires h != [] && k > 0.0 && d > 0.0 && s == k * d && s * s == Variance(h)
    ensures (1.0 + Sq(k)) * ShareAbove(h, Target(h, k, s)) <= 1.0
  {
    var m, factor := Mean(h), 1.0 + Sq(k);
    var t, c, reach := Target(h, k, s), m - d, Sq(factor * d);
    assert k * s == Sq(k) * d;
    Square(k);
    Markov(h, t, c, factor * d, d, factor);
    ScaledSquare(k, d, s);
    ScaledSquare(factor, d, factor * d);
    Square(d);
    Cancel(factor, Sq(d), ShareAbove(h, t), reach, Variance(h) + Sq(d));
  }

  /** The weight above t, times the square of its distance from c, is at most the spread about c. */
  lemma Markov(h: seq<real>, t: real, c: real, away: real, d: real, factor: real)
    requires h != [] && d > 0.0 && factor > 0.0 && away == factor * d && t - c == away
    ensures Sq(away) * ShareAbove(h, t) <= Variance(h) + Sq(Mean(h) - c)
  {
    forall x ensures Sq(away) * Over(t)(x) <= Gap2(c)(x) {
      Reach(x, t, c, away, d, factor);
    }
    WeightsPositive(|h| - 1);
    SumDominated(h, Weights(|h| - 1), Sq(away), Over(t), Gap2(c));
    SquaresAbout(h, c);
  }

  lemma Reach(x: real, t: real, c: real, away: real, d: real, factor: real)
    requires d > 0.0 && factor > 0.0 && away == factor * d && t - c == away
    ensures Sq(away) * Over(t)(x) <= Gap2(c)(x)
  {
    Product(factor, d);
    Square(x - c);
    SquareOrder(x - c, away);
  }

  lemma Cancel(factor: real, q: real, share: real, reach: real, total: real)
    requires factor > 0.0 && q > 0.0 && reach == Sq(factor) * q && total == factor * q && reach * share <= total
    ensures factor * share <= 1.0
  {
    var u, y := factor * q, factor * share;
    Product(factor, q);
    assert reach * share == u * y by {
      assert Sq(factor) * q == factor * u;
      assert (factor * u) * share == u * y;
    }
    Product(u, y - 1.0);
    assert u * (y - 1.0) == u * y - u;
  }

  /** For three standard deviations that is a tenth. */
  lemma Coverage(h: seq<real>, s: real)
    requires h != [] && s >= 0.0 && s * s == Variance(h)
    ensures ShareAbove(h, Target(h, 3.0, s)) <= 0.1
  {
    OneSidedBound(h, 3.0, s);
    assert Sq(3.0) == 9.0;
  }

  // ---------------------------------------------------------------- the bound is the best one

  lemma {:induction false} Bernoulli(n: nat)
    ensures Decay(n) * (1.0 + 0.02 * n as real) <= 1.0
  {
    if n > 0 {
      Bernoulli(n - 1);
      var d, a := Decay(n - 1), 1.0 + 0.02 * (n - 1) as real;
      Product(d, a - 1.0);
      assert d * (a - 1.0) == d * a - d;
      assert Decay(n) * (a + 0.02) == 0.98 * (d * a) + 0.0196 * d;
    } else {
      assert Decay(0) == 1.0;
    }
  }

  lemma DecayVanishes(eps: real) returns (n: nat)
    requires eps > 0.0
    ensures Decay(n) < eps
  {
    var x := 50.0 / eps;
    assert x * eps == 50.0;
    n := x.Floor + 1;
    var r := n as real;
    Bernoulli(n);
    BelowEps(Decay(n), eps, r, x);
  }

  lemma BelowEps(d: real, eps: real, r: real, x: real)
    requires d > 0.0 && eps > 0.0 && x * eps == 50.0 && r > x && r > 0.0
    requires d * (1.0 + 0.02 * r) <= 1.0
    ensures d < eps
  {
    var dr, er := d * r, eps * r;
    Product(eps, r - x);
    assert eps * (r - x) == er - x * eps;
    assert d * (1.0 + 0.02 * r) == d + 0.02 * dr;
    Product(d - eps, r);
    assert (d - eps) * r == dr - er;
  }

  /** A history of zeros and ones: an estimate of zero, and intervals of either kind. */
  predicate Bits(h: seq<real>) {
    forall x | x in h :: x == 0.0 || x == 1.0
  }

  /** Every mean between zero and one is met up to the weight of the initial estimate. */
  lemma {:induction false} NearMean(y: real, n: nat) returns (h: seq<real>)
    requires 0.0 <= y <= 1.0
    ensures |h| == n + 1 && Bits(h) && -Decay(n) <= Mean(h) - y <= Decay(n)
    decreases n
  {
    if n == 0 {
      h := [0.0];
      SinglePoint(0.0, Value());
    } else {
      var b := if y > 0.98 then 1.0 else 0.0;
      var z := (y - 0.02 * b) / 0.98;
      var init := NearMean(z, n - 1);
      h := init + [b];
      MeanSnoc(init, b);
      assert y == 0.98 * z + 0.02 * b;
      assert Decay(n) == 0.98 * Decay(n - 1);
    }
  }

  lemma MeanSnoc(h: seq<real>, x: real)
    requires h != []
    ensures Mean(h + [x]) == 0.98 * Mean(h) + 0.02 * x
  {
    SumSnoc(h, x, Value());
  }

  lemma {:induction false} SumSame(h: seq<real>, w: nat -> real, f: real -> real, g: real -> real)
    requires forall x | x in h :: f(x) == g(x)
    ensures Sum(h, w, f) == Sum(h, w, g)
  {
    if h != [] {
      var i := |h| - 1;
      SumSame(h[..i], w, f, g);
      assert forall x | x in h[..i] :: x in h;
      var x := h[i];
      assert x in h && f(x) == g(x);
      TermSame(w(i), f(x), g(x));
    }
  }

  lemma TermSame(w: real, x: real, y: real)
    requires x == y
    ensures w * x == w * y
  {
  }

  lemma BitsVariance(h: seq<real>)
    requires h != [] && Bits(h)
    ensures Variance(h) == Mean(h) * (1.0 - Mean(h))
  {
    var m, w := Mean(h), Weights(|h| - 1);
    var a, b := 1.0 - 2.0 * m, Sq(m);
    forall x | x in h ensures Gap2(m)(x) == Affine(a, b)(x) {
      BitSquare(m, x);
    }
    SumSame(h, w, Gap2(m), Affine(a, b));
    SumAffineMean(h, a, b);
    BitsAlgebra(m, a, b);
  }

  lemma BitSquare(m: real, x: real)
    requires x == 0.0 || x == 1.0
    ensures Sq(x - m) == (1.0 - 2.0 * m) * x + Sq(m)
  {
  }

  lemma BitsAlgebra(m: real, a: real, b: real)
    requires a == 1.0 - 2.0 * m && b == Sq(m)
    ensures a * m + b == m * (1.0 - m)
  {
  }

  lemma BitsAbove(h: seq<real>, t: real)
    requires h != [] && Bits(h) && 0.0 <= t < 1.0
    ensures ShareAbove(h, t) == Mean(h)
  {
    SumSame(h, Weights(|h| - 1), Over(t), Value());
  }

  /** Ones of total weight m lie above the threshold as long as (1 + k^2) m is below one. */
  lemma OnesStandOut(m: real, k: real, s: real)
    requires 0.0 < m < 1.0 && k >= 0.0 && s >= 0.0 && s * s == m * (1.0 - m) && (1.0 + Sq(k)) * m < 1.0
    ensures 0.0 <= m + k * s < 1.0
  {
    var rest, kk := 1.0 - m, Sq(k);
    Product(k, s);
    ScaledSquare(k, s, k * s);
    Product(rest, rest - kk * m);
    assert (1.0 + kk) * m == m + kk * m;
    assert kk * (m * rest) == rest * (kk * m);
    assert rest * (rest - kk * m) == Sq(rest) - rest * (kk * m);
    SquareOrder(rest, k * s);
  }

  /** At most the share `p` of every history lies above its mean plus k standard deviations. */
  ghost predicate Covers(p: real, k: real, sqrt: real -> real) {
    forall h | h != [] :: ShareAbove(h, Target(h, k, sqrt(Variance(h)))) <= p
  }

  /**
   A target of mean + k stddev leaves at most the share p of every history uncovered exactly when
   p (1 + k^2) >= 1. The documented 99.7% at k = 3 would need 0.003 * 10 >= 1.
   */
  lemma CoversIff(p: real, k: real, sqrt: real -> real)
    requires 0.0 < p < 1.0 && k >= 0.0 && IsSqrt(sqrt)
    ensures Covers(p, k, sqrt) <==> p * (1.0 + Sq(k)) >= 1.0
  {
    var factor := 1.0 + Sq(k);
    var limit := p * factor;
    Square(k);
    if p * factor >= 1.0 {
      forall h | h != [] ensures ShareAbove(h, Target(h, k, sqrt(Variance(h)))) <= p {
        var s := sqrt(Variance(h));
        VarianceNonNegative(h);
        OneSidedBound(h, k, s);
        Divide(factor, ShareAbove(h, Target(h, k, s)), p);
      }
    } else {
      var h := Uncovered(p, k, factor, sqrt);
    }
  }

  lemma Divide(factor: real, share: real, p: real)
    requires factor > 0.0 && factor * share <= 1.0 <= p * factor
    ensures share <= p
  {
    ScaledOrder(p, share, factor, p * factor, factor * share);
  }

  /** The history that leaves more than the share p above the threshold. */
  lemma Uncovered(p: real, k: real, factor: real, sqrt: real -> real) returns (h: seq<real>)
    requires 0.0 < p < 1.0 && k >= 0.0 && IsSqrt(sqrt) && factor == 1.0 + Sq(k) && p * factor < 1.0
    ensures h != [] && ShareAbove(h, Target(h, k, sqrt(Variance(h)))) > p
  {
    Square(k);
    var u := Between(p, factor);
    var y := (p + u) / 2.0;
    var n := DecayVanishes((u - p) / 2.0);
    h := NearMean(y, n);
    var m, s := Mean(h), sqrt(Variance(h));
    BitsVariance(h);
    VarianceNonNegative(h);
    Below(m, u, factor);
    OnesStandOut(m, k, s);
    BitsAbove(h, Target(h, k, s));
  }

  lemma Between(p: real, factor: real) returns (u: real)
    requires factor >= 1.0 && p * factor < 1.0
    ensures p < u <= 1.0 && u * factor == 1.0
  {
    u := 1.0 / factor;
    InUnit(p, factor, u);
  }

  lemma InUnit(p: real, factor: real, u: real)
    requires factor >= 1.0 && p * factor < 1.0 && u * factor == 1.0
    ensures p < u <= 1.0
  {
    ScaledOrder(u, p, factor, u * factor, p * factor);
    ScaledOrder(u, 1.0, factor, u * factor, factor);
  }

  lemma Below(m: real, u: real, factor: real)
    requires m < u && factor > 0.0 && u * factor == 1.0
    ensures factor * m < 1.0
  {
    ScaledOrder(u, m, factor, u * factor, factor * m);
  }

  // ---------------------------------------------------------------- late arrivals

  lemma LateAlgebra(d: real, v: real, s: real, m: real, x: real)
    requires s >= 0.0 && Sq(s) == 0.98 * (v + 0.02 * Sq(d)) && d == x - m
    ensures x > (m + 0.02 * d) + 3.0 * s <==> d > 0.0 && 0.8 * Sq(d) > 9.0 * v
  {
    SquareOrder(0.98 * d, 3.0 * s);
    ScaledSquare(0.98, d, 0.98 * d);
    ScaledSquare(3.0, s, 3.0 * s);
  }

  /**
   An interval `d` above the mean lies above the very target it leads to exactly when 0.8 d^2 exceeds
   nine times the variance before it, and then at least 2% of the weight does.
   */
  lemma LateArrivalIff(h: seq<real>, x: real, s: real)
    requires h != [] && s >= 0.0 && s * s == Variance(h + [x])
    ensures var d, target := x - Mean(h), Target(h + [x], 3.0, s);
            && (x > target <==> d > 0.0 && 0.8 * Sq(d) > 9.0 * Variance(h))
            && (x > target ==> ShareAbove(h + [x], target) >= 0.02)
  {
    var m, d, v, target := Mean(h), x - Mean(h), Variance(h), Target(h + [x], 3.0, s);
    RunningUpdateIsExact(h, x);
    assert 0.02 * d * d == 0.02 * Sq(d);
    LateAlgebra(d, v, s, m, x);
    SumSnoc(h, x, Over(target));
    WeightsPositive(|h| - 1);
    SumNonNegative(h, Weights(|h| - 1), Over(target));
  }

  /** Such an arrival: after an estimate of 0, one interval of 50 puts 2% of the weight above the target. */
  lemma DocumentedCoverageFails()
    ensures var h := [0.0, 50.0];
            && Mean(h) == 1.0 && Variance(h) == 49.0
            && ShareAbove(h, Target(h, 3.0, 7.0)) == 0.02
  {
    var h := [0.0, 50.0];
    SinglePoint(0.0, Value());
    SinglePoint(0.0, Gap2(0.0));
    SinglePoint(0.0, Over(22.0));
    assert Sq(0.0) == 0.0;
    assert [0.0] + [50.0] == h;
    SumSnoc([0.0], 50.0, Over(22.0));
    RunningUpdateIsExact([0.0], 50.0);
  }

  // ---------------------------------------------------------------- one outlier

  function Constant(c: real, n: nat): seq<real> {
    seq(n, _ => c)
  }

  /** An estimate of c and n intervals of c, then one of x, then j of c again. */
  function Outlier(c: real, n: nat, x: real, j: nat): seq<real> {
    Constant(c, n + 1) + [x] + Constant(c, j)
  }

  /** What is left of the outlier's weight. */
  function OutlierWeight(j: nat): real {
    0.02 * Decay(j)
  }

  lemma {:induction false} ConstantSum(c: real, n: nat, f: real -> real)
    ensures Sum(Constant(c, n + 1), Weights(n), f) == f(c)
  {
    if n == 0 {
      assert Constant(c, 1) == [c];
      SinglePoint(c, f);
    } else {
      assert Constant(c, n + 1) == Constant(c, n) + [c];
      ConstantSum(c, n - 1, f);
      SumSnoc(Constant(c, n), c, f);
    }
  }

  lemma OutlierAt(c: real, n: nat, x: real, j: nat)
    ensures |Outlier(c, n, x, j)| == n + 2 + j
    ensures Outlier(c, n, x, 0) == Constant(c, n + 1) + [x]
    ensures j > 0 ==> Outlier(c, n, x, j) == Outlier(c, n, x, j - 1) + [c]
  {
  }

  /** A weighted sum over such a history. */
  function OutlierValue(c: real, x: real, w: real, f: real -> real): real {
    f(c) + w * (f(x) - f(c))
  }

  lemma {:induction false} OutlierSum(c: real, n: nat, x: real, j: nat, f: real -> real)
    ensures Sum(Outlier(c, n, x, j), Weights(n + 1 + j), f) == OutlierValue(c, x, OutlierWeight(j), f)
  {
    OutlierAt(c, n, x, j);
    if j == 0 {
      OutlierFirst(c, n, x, f);
    } else {
      OutlierAt(c, n, x, j - 1);
      OutlierSum(c, n, x, j - 1, f);
      OutlierFades(Outlier(c, n, x, j - 1), n + 1 + j, c, x, OutlierWeight(j - 1), OutlierWeight(j), f);
    }
  }

  lemma OutlierFirst(c: real, n: nat, x: real, f: real -> real)
    ensures Sum(Constant(c, n + 1) + [x], Weights(n + 1), f) == OutlierValue(c, x, OutlierWeight(0), f)
  {
    ConstantSum(c, n, f);
    SumSnoc(Constant(c, n + 1), x, f);
    assert Decay(0) == 1.0;
    FirstStep(OutlierWeight(0), f(x) - f(c));
  }

  lemma FirstStep(w: real, gap: real)
    requires w == 0.02
    ensures w * gap == 0.02 * gap
  {
  }

  lemma OutlierFades(h: seq<real>, n: nat, c: real, x: real, w: real, v: real, f: real -> real)
    requires |h| == n > 0 && v == 0.98 * w && Sum(h, Weights(n - 1), f) == OutlierValue(c, x, w, f)
    ensures Sum(h + [c], Weights(n), f) == OutlierValue(c, x, v, f)
  {
    SumSnoc(h, c, f);
    FadeStep(w, v, f(x) - f(c), f(c), Sum(h, Weights(n - 1), f), Sum(h + [c], Weights(n), f));
  }

  lemma FadeStep(w: real, v: real, gap: real, y: real, before: real, total: real)
    requires v == 0.98 * w && before == y + w * gap && total == 0.98 * before + 0.02 * y
    ensures total == y + v * gap
  {
    assert v * gap == 0.98 * (w * gap);
  }

  lemma OutlierStatistics(c: real, n: nat, x: real, j: nat, h: seq<real>, w: real, d: real, wd: real)
    requires h == Outlier(c, n, x, j) && w == OutlierWeight(j) && d == x - c && wd == w * d
    ensures Mean(h) == c + wd && Variance(h) == (w * (1.0 - w)) * Sq(d)
  {
    OutlierSum(c, n, x, j, Value());
    TermSame(w, Value()(x) - Value()(c), d);
    var m := Mean(h);
    OutlierSum(c, n, x, j, Gap2(m));
    TermSame(w, Gap2(m)(x) - Gap2(m)(c), Sq(x - m) - Sq(c - m));
    Spread(w, d, wd, c - m, x - m, Variance(h));
  }

  lemma Spread(w: real, d: real, wd: real, e: real, g: real, total: real)
    requires wd == w * d && e == -wd && g == d - wd && total == Sq(e) + w * (Sq(g) - Sq(e))
    ensures total == (w * (1.0 - w)) * Sq(d)
  {
    var rest := 1.0 - w;
    ScaledSquare(-w, d, e);
    ScaledSquare(rest, d, g);
    SpreadAlgebra(w, rest, Sq(d), Sq(-w), Sq(rest), Sq(e), Sq(g), total);
  }

  lemma SpreadAlgebra(w: real, rest: real, q: real, a: real, b: real, near: real, far: real, total: real)
    requires rest == 1.0 - w && a == w * w && b == rest * rest
    requires near == a * q && far == b * q && total == near + w * (far - near)
    ensures total == (w * rest) * q
  {
    assert far - near == (b - a) * q;
    assert w * ((b - a) * q) == (w * (b - a)) * q;
    assert a + w * (b - a) == w * rest;
    assert a * q + (w * (b - a)) * q == (a + w * (b - a)) * q;
  }

  /** For a light outlier, the squared distances of the two kinds of points against nine variances. */
  lemma SquaredDistances(w: real, rest: real, q: real, far: real, near: real, nine: real)
    requires 0.0 < w <= 0.02 && rest == 1.0 - w && q >= 0.0
    requires far == (rest * rest) * q && near == (w * w) * q && nine == (9.0 * (w * rest)) * q
    ensures q > 0.0 ==> far > nine
    ensures near <= nine
  {
    var a, b, c := rest * rest, w * w, 9.0 * (w * rest);
    ScaledOrder(9.0 * w, rest, rest, c, a);
    ScaledOrder(w, 9.0 * rest, w, b, c);
    if q > 0.0 {
      ScaledOrder(c, a, q, nine, far);
      ScaledOrder(b, c, q, near, nine);
    }
  }

  /** An outlier at distance d lies above the target exactly if it is late; the other points never do. */
  lemma OutlierAbove(w: real, d: real, wd: real, s: real, e: real, g: real)
    requires 0.0 < w <= 0.02 && s >= 0.0 && s * s == (w * (1.0 - w)) * Sq(d)
    requires wd == w * d && e == -wd && g == d - wd
    ensures g > 3.0 * s <==> d > 0.0
    ensures e <= 3.0 * s
  {
    var rest, q, t := 1.0 - w, Sq(d), 3.0 * s;
    OutlierSquares(w, rest, d, wd, q, s, e, g);
    Square(d);
    SquaredDistances(w, rest, q, Sq(g), Sq(e), Sq(t));
    SquareOrder(g, t);
    SquareOrder(e, t);
    ScaledOrder(0.0, d, rest, 0.0, g);
  }

  lemma OutlierSquares(w: real, rest: real, d: real, wd: real, q: real, s: real, e: real, g: real)
    requires rest == 1.0 - w && q == Sq(d) && s * s == (w * rest) * q
    requires wd == w * d && e == -wd && g == d - wd
    ensures g == rest * d
    ensures Sq(g) == (rest * rest) * q
    ensures Sq(e) == (w * w) * q
    ensures Sq(3.0 * s) == (9.0 * (w * rest)) * q
  {
    assert Sq(-w) == w * w;
    ScaledSquare(-w, d, e);
    ScaledSquare(rest, d, g);
    ScaledSquare(3.0, s, 3.0 * s);
  }

  lemma WeighOver(w: real, near: real, far: real)
    requires near == 0.0 && (far == 0.0 || far == 1.0)
    ensures near + w * (far - near) == if far == 1.0 then w else 0.0
  {
  }

  /** After any number of regular arrivals, one outlier and j regular ones: what lies above the target. */
  lemma OutlierShare(c: real, n: nat, x: real, j: nat, s: real)
    requires s >= 0.0 && s * s == Variance(Outlier(c, n, x, j))
    ensures var h := Outlier(c, n, x, j);
            ShareAbove(h, Target(h, 3.0, s)) == if x > c then OutlierWeight(j) else 0.0
  {
    var h, w := Outlier(c, n, x, j), OutlierWeight(j);
    var t := Target(h, 3.0, s);
    DecayFalls(0, j);
    assert Decay(0) == 1.0;
    var d := x - c;
    var wd := w * d;
    OutlierStatistics(c, n, x, j, h, w, d, wd);
    OutlierAbove(w, d, wd, s, -wd, d - wd);
    OutlierSum(c, n, x, j, Over(t));
    WeighOver(w, Over(t)(c), Over(t)(x));
  }

  // ---------------------------------------------------------------- how long an outlier counts

  lemma {:induction false} DecayFalls(i: nat, j: nat)
    requires i <= j
    ensures Decay(j) <= Decay(i)
  {
    if i < j {
      DecayFalls(i, j - 1);
    }
  }

  lemma {:induction false} DecayAdd(i: nat, j: nat)
    ensures Decay(i + j) == Decay(i) * Decay(j)
  {
    if j == 0 {
      assert Decay(0) == 1.0;
    } else {
      DecayAdd(i, j - 1);
      var a, b := Decay(i), Decay(j - 1);
      assert a * (0.98 * b) == 0.98 * (a * b);
    }
  }

  predicate DecayIn(n: nat, low: real, high: real) {
    0.0 < low <= Decay(n) <= high
  }

  lemma ProductIn(x: real, y: real, p: real, a: real, b: real, u: real, v: real, low: real, high: real)
    requires p == x * y && low <= a * u && b * v <= high
    requires 0.0 < a <= x <= b && 0.0 < u <= y <= v
    ensures low <= p <= high
  {
    TimesOrder(a, x, u);
    ScaledOrder(u, y, x, x * u, p);
    ScaledOrder(x, b, y, p, b * y);
    ScaledOrder(y, v, b, b * y, b * v);
  }

  lemma DecaySum(i: nat, j: nat, a: real, b: real, u: real, v: real, low: real, high: real) returns (n: nat)
    requires DecayIn(i, a, b) && DecayIn(j, u, v)
    requires 0.0 < low <= a * u && b * v <= high
    ensures n == i + j && DecayIn(n, low, high)
  {
    n := i + j;
    DecayAdd(i, j);
    ProductIn(Decay(i), Decay(j), Decay(n), a, b, u, v, low, high);
  }

  lemma ShortDecay() returns (one: nat, four: nat)
    ensures one == 1 && DecayIn(one, 0.98, 0.98)
    ensures four == 4 && DecayIn(four, 0.92236, 0.92237)
  {
    one, four := 1, 4;
    assert Decay(0) == 1.0;
    assert Decay(1) == 0.98;
    assert Decay(2) == 0.9604;
    assert Decay(3) == 0.941192;
  }

  lemma LongDecay() returns (one: nat, most: nat)
    ensures one == 1 && DecayIn(one, 0.98, 0.98)
    ensures most == 92 && DecayIn(most, 0.1558, 0.15593)
  {
    var four;
    one, four := ShortDecay();
    var n8 := DecaySum(four, four, 0.92236, 0.92237, 0.92236, 0.92237, 0.85074, 0.85077);
    var n16 := DecaySum(n8, n8, 0.85074, 0.85077, 0.85074, 0.85077, 0.72375, 0.72381);
    var n32 := DecaySum(n16, n16, 0.72375, 0.72381, 0.72375, 0.72381, 0.5238, 0.52391);
    var n64 := DecaySum(n32, n32, 0.5238, 0.52391, 0.5238, 0.52391, 0.27436, 0.27449);
    var n80 := DecaySum(n64, n16, 0.27436, 0.27449, 0.72375, 0.72381, 0.19856, 0.19869);
    var n88 := DecaySum(n80, n8, 0.19856, 0.19869, 0.85074, 0.85077, 0.16892, 0.16904);
    most := DecaySum(n88, four, 0.16892, 0.16904, 0.92236, 0.92237, 0.1558, 0.15593);
  }

  /** 0.98^93 > 0.15 > 0.98^94. */
  lemma DecayPasses() returns (before: nat, after: nat)
    ensures before == 93 && Decay(before) > 0.15
    ensures after == 94 && Decay(after) < 0.15
  {
    var one, most := LongDecay();
    before := DecaySum(most, one, 0.1558, 0.15593, 0.98, 0.98, 0.1526, 0.1529);
    after := DecaySum(before, one, 0.1526, 0.1529, 0.98, 0.98, 0.1495, 0.1499);
  }

  /** A single late arrival leaves the documented 99.7% covered again from the 94th regular one on. */
  lemma OutlierCoveredIff(c: real, n: nat, x: real, j: nat, s: real)
    requires s >= 0.0 && s * s == Variance(Outlier(c, n, x, j))
    ensures var h := Outlier(c, n, x, j);
            ShareAbove(h, Target(h, 3.0, s)) <= 0.003 <==> x <= c || j >= 94
  {
    OutlierShare(c, n, x, j, s);
    var before, after := DecayPasses();
    if j >= after {
      DecayFalls(after, j);
    } else {
      DecayFalls(j, before);
    }
  }
}
