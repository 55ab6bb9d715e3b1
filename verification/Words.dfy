/** Machine integers as bounded integers, and a little arithmetic on them. */
module Words {

  type u8 = x: int | 0 <= x < 0x100
  type u16 = x: int | 0 <= x < 0x1_0000
  type u32 = x: int | 0 <= x < 0x1_0000_0000
  type u64 = x: int | 0 <= x < 0x1_0000_0000_0000_0000
  type i16 = x: int | -0x8000 <= x < 0x8000

  datatype Option<+T> = None | Some(value: T)

  function Min(a: int, b: int): int {
    if a <= b then a else b
  }

  function Max(a: int, b: int): int {
    if a >= b then a else b
  }

  function Silence(n: nat): seq<i16> {
    seq(n, _ => 0)
  }

  function WrapAdd32(a: u32, b: nat): u32 {
    (a + b) % 0x1_0000_0000
  }

  lemma WrapTwice(s: u32, a: nat, b: nat)
    ensures WrapAdd32(WrapAdd32(s, a), b) == WrapAdd32(s, a + b)
  {
  }

  function WrapMul32(a: u32, b: u32): u32 {
    MulSign(a, b);
    (a * b) % 0x1_0000_0000
  }

  function WrapAdd16(a: u16, b: nat): u16 {
    (a + b) % 0x1_0000
  }

  function Pow2(k: nat): (p: int)
    ensures p >= 1
  {
    if k == 0 then 1 else 2 * Pow2(k - 1)
  }

  lemma MulSign(a: int, b: int)
    requires a >= 0
    ensures b >= 0 ==> a * b >= 0
    ensures b <= 0 ==> a * b <= 0
  {
  }

  lemma SmallMultiple(d: int, m: int)
    requires -d < d * m < d
    ensures m == 0
  {
    assert d * m == d + d * (m - 1);
    assert d * m == -d + d * (m + 1);
    MulSign(d, m - 1);
    MulSign(d, m + 1);
  }

  lemma QuotientUnique(d: int, p: int, s: int, q: int, r: int)
    requires d * p + s == d * q + r && 0 <= r < d && 0 <= s < d
    ensures p == q && r == s
  {
    assert d * (p - q) == d * p - d * q;
    SmallMultiple(d, p - q);
  }

  /** A quotient is determined by a remainder in range. */
  lemma DivUnique(x: int, d: int, q: int, r: int)
    requires x == d * q + r && 0 <= r < d
    ensures x / d == q && x % d == r
  {
    QuotientUnique(d, x / d, x % d, q, r);
  }

  lemma NestedQuotient(x: int, a: int, b: int, q: int, r: int, p: int, s: int)
    requires x == a * q + r && q == b * p + s && 0 <= r < a && 0 <= s < b
    ensures x == a * b * p + (a * s + r) && 0 <= a * s + r < a * b
  {
    assert a * (b * p + s) == a * (b * p) + a * s;
    assert a * (b * p) == a * b * p;
    MulSign(a, s);
    MulSign(a, b - 1 - s);
    assert a * (b - 1 - s) == a * b - a - a * s;
  }

  /** Dividing in two rounds, rounding down each time, is dividing once. */
  lemma DivDiv(x: int, a: int, b: int)
    requires a > 0 && b > 0
    ensures a * b > 0 && (x / a) / b == x / (a * b)
  {
    var q, r := x / a, x % a;
    var p, s := q / b, q % b;
    NestedQuotient(x, a, b, q, r, p, s);
    DivUnique(x, a * b, p, a * s + r);
  }
}
