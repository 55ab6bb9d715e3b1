/**
 Polynomials over GF(2), as the finite set of exponents whose coefficient is one.
 Negative exponents are allowed, so that multiplying by a power of x can be undone.
 */
module Gf2 {

  type Poly = set<int>

  /** Sum (and difference) of two polynomials. */
  function Add(a: Poly, b: Poly): Poly {
    (a - b) + (b - a)
  }

  /** The product with x^k. */
  function Shift(a: Poly, k: int): (r: Poly)
    ensures forall e {:trigger e in r} :: e in r <==> e - k in a
  {
    var r := set e | e in a :: e + k;
    assert forall e | e - k in a :: e in r by {
      forall e | e - k in a ensures e in r {
        assert (e - k) + k == e;
      }
    }
    r
  }

  /** The product with the generator x^8 + x^5 + x^4 + 1. */
  function MulG(q: Poly): (r: Poly)
    ensures forall e {:trigger e in r} ::
              e in r <==> ((e - 8 in q) != (e - 5 in q)) != ((e - 4 in q) != (e in q))
  {
    Add(Add(Shift(q, 8), Shift(q, 5)), Add(Shift(q, 4), q))
  }

  /** `a` is a multiple of the generator. */
  ghost predicate Divisible(a: Poly) {
    exists q :: MulG(q) == a
  }

  /** No negative exponent occurs. */
  ghost predicate Proper(a: Poly) {
    forall e | e in a :: 0 <= e
  }

  /** `r` is what the division of `a` by the generator leaves: a = q*G + r with deg r < 8. */
  ghost predicate IsRemainder(a: Poly, r: Poly) {
    && (exists q :: Proper(q) && MulG(q) == Add(a, r))
    && forall e | e in r :: 0 <= e < 8
  }

  lemma MulGAdd(p: Poly, q: Poly)
    ensures MulG(Add(p, q)) == Add(MulG(p), MulG(q))
  {
  }

  lemma MulGShift(q: Poly, k: int)
    ensures MulG(Shift(q, k)) == Shift(MulG(q), k)
  {
    forall e ensures e in MulG(Shift(q, k)) <==> e in Shift(MulG(q), k) {
      assert e in Shift(MulG(q), k) <==> e - k in MulG(q);
      assert e - k - 8 == e - 8 - k && e - k - 5 == e - 5 - k && e - k - 4 == e - 4 - k;
    }
  }

  lemma ShiftShift(a: Poly, j: int, k: int)
    ensures Shift(Shift(a, j), k) == Shift(a, j + k)
  {
  }

  lemma ShiftAdd(a: Poly, b: Poly, k: int)
    ensures Shift(Add(a, b), k) == Add(Shift(a, k), Shift(b, k))
  {
  }

  lemma DivisibleAdd(a: Poly, b: Poly)
    requires Divisible(a) && Divisible(b)
    ensures Divisible(Add(a, b))
  {
    var p :| MulG(p) == a;
    var q :| MulG(q) == b;
    MulGAdd(p, q);
  }

  /** Congruence modulo the generator is transitive. */
  lemma DivisibleChain(a: Poly, b: Poly, c: Poly)
    requires Divisible(Add(a, b)) && Divisible(Add(b, c))
    ensures Divisible(Add(a, c))
  {
    DivisibleAdd(Add(a, b), Add(b, c));
    assert Add(Add(a, b), Add(b, c)) == Add(a, c);
  }

  lemma ShiftedDivisible(a: Poly, k: int)
    requires Divisible(a)
    ensures Divisible(Shift(a, k))
  {
    var q :| MulG(q) == a;
    MulGShift(q, k);
  }

  /** The generator has constant term one, so it shares no factor with x^k. */
  lemma DivisibleShifted(a: Poly, k: int)
    requires Divisible(Shift(a, k))
    ensures Divisible(a)
  {
    var q :| MulG(q) == Shift(a, k);
    FactorBack(a, k, q, Shift(q, -k));
  }

  lemma FactorBack(a: Poly, k: int, q: Poly, p: Poly)
    requires MulG(q) == Shift(a, k) && p == Shift(q, -k)
    ensures Divisible(a)
  {
    forall e ensures e in MulG(p) <==> e in a {
      MemberBack(a, k, q, p, e, e + k);
    }
    assert MulG(p) == a;
  }

  lemma MemberBack(a: Poly, k: int, q: Poly, p: Poly, e: int, f: int)
    requires MulG(q) == Shift(a, k) && p == Shift(q, -k) && f == e + k
    ensures e in MulG(p) <==> e in a
  {
    MulShifted(k, q, p, e, f);
    ShiftMember(a, k, e, f);
  }

  lemma ShiftMember(a: Poly, k: int, e: int, f: int)
    requires f == e + k
    ensures f in Shift(a, k) <==> e in a
  {
    assert f - k == e;
  }

  lemma MulShifted(k: int, q: Poly, p: Poly, e: int, f: int)
    requires p == Shift(q, -k) && f == e + k
    ensures e in MulG(p) <==> f in MulG(q)
  {
    ShiftedMember(q, k, p, e - 8, f - 8);
    ShiftedMember(q, k, p, e - 5, f - 5);
    ShiftedMember(q, k, p, e - 4, f - 4);
    ShiftedMember(q, k, p, e, f);
    SameTerms(p, q, e, f);
  }

  lemma MulGMember(q: Poly, e: int, a: bool, b: bool, c: bool, d: bool)
    requires a == (e - 8 in q) && b == (e - 5 in q) && c == (e - 4 in q) && d == (e in q)
    ensures e in MulG(q) <==> ((a != b) != (c != d))
  {
  }

  lemma SameTerms(p: Poly, q: Poly, e: int, f: int)
    requires (e - 8 in p <==> f - 8 in q) && (e - 5 in p <==> f - 5 in q)
    requires (e - 4 in p <==> f - 4 in q) && (e in p <==> f in q)
    ensures e in MulG(p) <==> f in MulG(q)
  {
    MulGMember(p, e, e - 8 in p, e - 5 in p, e - 4 in p, e in p);
    MulGMember(q, f, e - 8 in p, e - 5 in p, e - 4 in p, e in p);
  }

  lemma ShiftedMember(q: Poly, k: int, p: Poly, e: int, f: int)
    requires p == Shift(q, -k) && f == e + k
    ensures e in p <==> f in q
  {
    assert e - (-k) == f;
  }

  lemma DivisibleShiftedIff(a: Poly, k: int, b: Poly)
    requires b == Shift(a, k)
    ensures Divisible(b) <==> Divisible(a)
  {
    if Divisible(a) {
      ShiftedDivisible(a, k);
    }
    if Divisible(b) {
      DivisibleShifted(a, k);
    }
  }

  // ---------------------------------------------------------------- degrees

  lemma Empty(s: Poly)
    requires forall e :: e !in s
    ensures s == {}
  {
    assert forall e :: e in s <==> e in {};
  }

  lemma NonEmpty(s: Poly)
    requires s != {}
    ensures exists e :: e in s
  {
    if !(exists e :: e in s) {
      Empty(s);
      assert false;
    }
  }

  lemma {:induction false} ExtremesExist(s: Poly) returns (low: int, high: int)
    requires s != {}
    ensures low in s && high in s && forall e | e in s :: low <= e <= high
    decreases |s|
  {
    NonEmpty(s);
    var x :| x in s;
    var rest := s - {x};
    assert s == rest + {x};
    if rest == {} {
      low, high := x, x;
    } else {
      low, high := ExtremesExist(rest);
      low := if x < low then x else low;
      high := if x > high then x else high;
    }
  }

  /** A non-zero multiple of the generator spans at least nine exponents, its quotient's ends included. */
  lemma MultipleSpan(q: Poly, low: int, high: int)
    requires low in q && high in q && forall e | e in q :: low <= e <= high
    ensures low in MulG(q) && high + 8 in MulG(q)
  {
    assert high + 5 !in q && high + 3 !in q && high + 4 !in q && high + 8 !in q;
    assert low - 8 !in q && low - 5 !in q && low - 4 !in q;
    assert high + 8 - 8 == high;
  }

  /** A multiple of the generator that fits eight consecutive exponents is zero. */
  lemma NarrowMultipleIsZero(a: Poly, low: int)
    requires Divisible(a) && forall e | e in a :: low <= e < low + 8
    ensures a == {}
  {
    var q :| MulG(q) == a;
    if q != {} {
      var l, h := ExtremesExist(q);
      MultipleSpan(q, l, h);
      assert false;
    }
    assert MulG({}) == {};
  }

  /** The quotient of a proper polynomial is proper. */
  lemma RemainderIffDivisible(a: Poly, r: Poly)
    requires Proper(a) && forall e | e in r :: 0 <= e < 8
    ensures IsRemainder(a, r) <==> Divisible(Add(a, r))
  {
    if Divisible(Add(a, r)) {
      var q :| MulG(q) == Add(a, r);
      if q == {} {
        assert Proper(q);
      } else {
        var l, h := ExtremesExist(q);
        MultipleSpan(q, l, h);
        assert l in Add(a, r);
        assert Proper(q);
      }
    }
  }

  /** Division by the generator leaves one remainder only. */
  lemma RemainderUnique(a: Poly, r: Poly, s: Poly)
    requires IsRemainder(a, r) && IsRemainder(a, s)
    ensures r == s
  {
    DivisibleAdd(Add(a, r), Add(a, s));
    assert Add(Add(a, r), Add(a, s)) == Add(r, s);
    NarrowMultipleIsZero(Add(r, s), 0);
    assert forall e :: e in r <==> e in s by {
      forall e ensures e in r <==> e in s {
        assert e !in Add(r, s);
      }
    }
  }

  // ---------------------------------------------------------------- parity

  lemma AddCard(a: Poly, b: Poly)
    ensures |a| + |b| == |Add(a, b)| + 2 * |a * b|
  {
    assert a == (a - b) + (a * b) && b == (b - a) + (a * b);
    assert |a| == |a - b| + |a * b| && |b| == |b - a| + |a * b|;
  }

  lemma {:induction false} ShiftCard(a: Poly, k: int)
    ensures |Shift(a, k)| == |a|
    decreases |a|
  {
    if a == {} {
      assert Shift(a, k) == {};
    } else {
      NonEmpty(a);
      var x :| x in a;
      var rest := a - {x};
      ShiftCard(rest, k);
      assert Shift(a, k) == Shift(rest, k) + {x + k};
      assert x + k !in Shift(rest, k);
    }
  }

  lemma AddCard4(a: Poly, b: Poly, c: Poly, d: Poly, n: nat)
    requires |a| == |b| == |c| == |d| == n
    ensures |Add(Add(a, b), Add(c, d))| % 2 == 0
  {
    var p, q := Add(a, b), Add(c, d);
    AddCard(a, b);
    AddCard(c, d);
    AddCard(p, q);
    assert |Add(p, q)| == 2 * (2 * n - |a * b| - |c * d| - |p * q|);
  }

  /** The generator has an even number of terms, and so has each of its multiples. */
  lemma DivisibleIsEven(a: Poly)
    requires Divisible(a)
    ensures |a| % 2 == 0
  {
    var q :| MulG(q) == a;
    var s8, s5, s4 := Shift(q, 8), Shift(q, 5), Shift(q, 4);
    assert a == Add(Add(s8, s5), Add(s4, q));
    ShiftCard(q, 8);
    ShiftCard(q, 5);
    ShiftCard(q, 4);
    AddCard4(s8, s5, s4, q, |q|);
  }

  /** Congruent polynomials have the same number of terms, modulo two. */
  lemma CongruentParity(a: Poly, b: Poly)
    requires Divisible(Add(a, b))
    ensures |a| % 2 == |b| % 2
  {
    DivisibleIsEven(Add(a, b));
    EvenSum(a, b);
  }

  lemma EvenSum(a: Poly, b: Poly)
    requires |Add(a, b)| % 2 == 0
    ensures |a| % 2 == |b| % 2
  {
    AddCard(a, b);
  }
}
