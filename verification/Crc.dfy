/** `crc8_maxim`: the shift-and-xor loop, and the polynomial division it performs. */
module Crc {
  import opened Gf2

  /** Bit `i` of a byte. */
  predicate Bit(b: bv8, i: int) {
    match i
    case 0 => b & 0x01 != 0
    case 1 => b & 0x02 != 0
    case 2 => b & 0x04 != 0
    case 3 => b & 0x08 != 0
    case 4 => b & 0x10 != 0
    case 5 => b & 0x20 != 0
    case 6 => b & 0x40 != 0
    case 7 => b & 0x80 != 0
    case _ => false
  }

  /** The bits of a byte, bit i standing for x^i. */
  function BytePoly(b: bv8): Poly {
    set i | 0 <= i < 8 && Bit(b, i)
  }

  /** The message polynomial: the first byte holds the highest powers. */
  function MsgPoly(m: seq<bv8>): Poly {
    if m == [] then {} else Add(Shift(MsgPoly(m[..|m| - 1]), 8), BytePoly(m[|m| - 1]))
  }

  /** One turn of the inner loop. */
  function Step(crc: bv8): bv8 {
    if crc & 0x80 != 0 then (crc << 1) ^ 0x31 else crc << 1
  }

  function Steps(crc: bv8, n: nat): bv8 {
    if n == 0 then crc else Step(Steps(crc, n - 1))
  }

  /** The checksum as a fold over the message. */
  function Crc8(m: seq<bv8>): bv8 {
    if m == [] then 0 else Steps(Crc8(m[..|m| - 1]) ^ m[|m| - 1], 8)
  }

  method Crc8Maxim(data: seq<bv8>) returns (crc: bv8)
    ensures crc == Crc8(data)
    ensures IsRemainder(Shift(MsgPoly(data), 8), BytePoly(crc))
  {
    crc := 0x00;
    for n := 0 to |data|
      invariant crc == Crc8(data[..n])
    {
      crc := crc ^ data[n];
      ghost var start := crc;
      for k := 0 to 8
        invariant crc == Steps(start, k)
      {
        if crc & 0x80 != 0 {
          crc := (crc << 1) ^ 0x31;
        } else {
          crc := crc << 1;
        }
      }
      assert data[..n + 1][..n] == data[..n];
    }
    assert data[..|data|] == data;
    CrcIsRemainder(data, crc);
  }

  // ---------------------------------------------------------------- bytes

  lemma XorMask(a: bv8, b: bv8, m: bv8)
    requires m & (m - 1) == 0
    ensures (a ^ b) & m != 0 <==> (a & m != 0) != (b & m != 0)
  {
    assert (a ^ b) & m == (a & m) ^ (b & m);
  }

  lemma XorLowBit(a: bv8, b: bv8, i: int)
    requires i < 4
    ensures Bit(a ^ b, i) <==> Bit(a, i) != Bit(b, i)
  {
    XorMask(a, b, 0x01);
    XorMask(a, b, 0x02);
    XorMask(a, b, 0x04);
    XorMask(a, b, 0x08);
  }

  lemma XorHighBit(a: bv8, b: bv8, i: int)
    requires i >= 4
    ensures Bit(a ^ b, i) <==> Bit(a, i) != Bit(b, i)
  {
    XorMask(a, b, 0x10);
    XorMask(a, b, 0x20);
    XorMask(a, b, 0x40);
    XorMask(a, b, 0x80);
  }

  lemma XorBit(a: bv8, b: bv8, i: int)
    ensures Bit(a ^ b, i) <==> Bit(a, i) != Bit(b, i)
  {
    if i < 4 {
      XorLowBit(a, b, i);
    } else {
      XorHighBit(a, b, i);
    }
  }

  lemma BytePolyXor(a: bv8, b: bv8)
    ensures BytePoly(a ^ b) == Add(BytePoly(a), BytePoly(b))
  {
    forall i ensures i in BytePoly(a ^ b) <==> i in Add(BytePoly(a), BytePoly(b)) {
      XorBit(a, b, i);
    }
  }

  lemma SameBits(a: bv8, b: bv8)
    requires forall i :: Bit(a, i) <==> Bit(b, i)
    ensures a == b
  {
    assert Bit(a, 0) == Bit(b, 0) && Bit(a, 1) == Bit(b, 1) && Bit(a, 2) == Bit(b, 2) && Bit(a, 3) == Bit(b, 3);
    assert Bit(a, 4) == Bit(b, 4) && Bit(a, 5) == Bit(b, 5) && Bit(a, 6) == Bit(b, 6) && Bit(a, 7) == Bit(b, 7);
  }

  lemma BytePolyInjective(a: bv8, b: bv8)
    requires BytePoly(a) == BytePoly(b)
    ensures a == b
  {
    forall i ensures Bit(a, i) <==> Bit(b, i) {
      assert i in BytePoly(a) <==> i in BytePoly(b);
    }
    SameBits(a, b);
  }

  // ---------------------------------------------------------------- refinement

  lemma StepBit(c: bv8, i: int)
    ensures Bit(Step(c), i) <==> 0 <= i < 8 && (Bit(c, i - 1) != (Bit(c, 7) && i in {0, 4, 5}))
  {
  }

  /** One turn multiplies by x and subtracts the generator when x^8 appears. */
  lemma StepPoly(c: bv8)
    ensures Divisible(Add(Shift(BytePoly(c), 1), BytePoly(Step(c))))
  {
    var q: Poly := if Bit(c, 7) then {0} else {};
    forall e ensures e in MulG(q) <==> e in Add(Shift(BytePoly(c), 1), BytePoly(Step(c))) {
      StepBit(c, e);
      assert e in Shift(BytePoly(c), 1) <==> Bit(c, e - 1);
      assert e in BytePoly(Step(c)) <==> Bit(Step(c), e);
      assert e in MulG(q) <==> Bit(c, 7) && e in {0, 4, 5, 8};
    }
    assert MulG(q) == Add(Shift(BytePoly(c), 1), BytePoly(Step(c)));
  }

  lemma Zero()
    ensures Divisible({})
  {
    assert MulG({}) == {};
  }

  lemma {:induction false} StepsPoly(c: bv8, n: nat)
    ensures Divisible(Add(Shift(BytePoly(c), n), BytePoly(Steps(c, n))))
  {
    var p := BytePoly(c);
    if n == 0 {
      Zero();
      assert Add(Shift(p, 0), p) == {};
    } else {
      var s := Steps(c, n - 1);
      StepsPoly(c, n - 1);
      ShiftedDivisible(Add(Shift(p, n - 1), BytePoly(s)), 1);
      ShiftAdd(Shift(p, n - 1), BytePoly(s), 1);
      ShiftShift(p, n - 1, 1);
      StepPoly(s);
      DivisibleChain(Shift(p, n), Shift(BytePoly(s), 1), BytePoly(Step(s)));
    }
  }

  /** Folding a byte into the register adds it to both sides of the congruence. */
  lemma Absorb(high: Poly, register: bv8, byte: bv8)
    requires Divisible(Add(high, BytePoly(register)))
    ensures Divisible(Add(Add(high, BytePoly(byte)), BytePoly(register ^ byte)))
  {
    BytePolyXor(register, byte);
    assert Add(Add(high, BytePoly(byte)), BytePoly(register ^ byte)) == Add(high, BytePoly(register));
  }

  lemma Advance(m: Poly, register: bv8)
    requires Divisible(Add(m, BytePoly(register)))
    ensures Divisible(Add(Shift(m, 8), BytePoly(Steps(register, 8))))
  {
    ShiftedDivisible(Add(m, BytePoly(register)), 8);
    ShiftAdd(m, BytePoly(register), 8);
    StepsPoly(register, 8);
    DivisibleChain(Shift(m, 8), Shift(BytePoly(register), 8), BytePoly(Steps(register, 8)));
  }

  lemma {:induction false} CrcDivides(m: seq<bv8>)
    ensures Divisible(Add(Shift(MsgPoly(m), 8), BytePoly(Crc8(m))))
  {
    if m == [] {
      Zero();
      assert BytePoly(0) == {};
      assert Add(Shift({}, 8), {}) == {};
    } else {
      var init, last := m[..|m| - 1], m[|m| - 1];
      CrcDivides(init);
      Absorb(Shift(MsgPoly(init), 8), Crc8(init), last);
      Advance(MsgPoly(m), Crc8(init) ^ last);
    }
  }

  lemma {:induction false} MsgPolyProper(m: seq<bv8>)
    ensures Proper(MsgPoly(m))
  {
    if m != [] {
      MsgPolyProper(m[..|m| - 1]);
    }
  }

  /** The loop computes M(x)*x^8 mod x^8+x^5+x^4+1, and no other byte is that remainder. */
  lemma CrcIsRemainder(m: seq<bv8>, r: bv8)
    ensures r == Crc8(m) <==> IsRemainder(Shift(MsgPoly(m), 8), BytePoly(r))
  {
    CrcDivides(m);
    MsgPolyProper(m);
    RemainderIffDivisible(Shift(MsgPoly(m), 8), BytePoly(Crc8(m)));
    if IsRemainder(Shift(MsgPoly(m), 8), BytePoly(r)) {
      RemainderUnique(Shift(MsgPoly(m), 8), BytePoly(r), BytePoly(Crc8(m)));
      BytePolyInjective(r, Crc8(m));
    }
  }

  // ---------------------------------------------------------------- the message polynomial, bit by bit

  /** x^e appears in the message polynomial exactly when the bit it stands for is set. */
  lemma {:induction false} MsgPolyBits(m: seq<bv8>, e: int)
    ensures e in MsgPoly(m) <==> 0 <= e < 8 * |m| && Bit(m[|m| - 1 - e / 8], e % 8)
  {
    if m != [] {
      var init := m[..|m| - 1];
      MsgPolyBits(init, e - 8);
      assert (e - 8) / 8 == e / 8 - 1 && (e - 8) % 8 == e % 8;
      assert e in BytePoly(m[|m| - 1]) <==> Bit(m[|m| - 1], e);
      if 8 <= e < 8 * |m| {
        assert init[|init| - 1 - (e - 8) / 8] == m[|m| - 1 - e / 8];
      }
    }
  }

  /** The positions at which two messages differ, counted from their last bit. */
  function Error(a: seq<bv8>, b: seq<bv8>): Poly {
    Add(MsgPoly(a), MsgPoly(b))
  }

  /** For messages of one length, position e is in error exactly when its bits differ. */
  lemma ErrorBits(a: seq<bv8>, b: seq<bv8>, e: int)
    requires |a| == |b|
    ensures e in Error(a, b) <==>
              0 <= e < 8 * |a| && Bit(a[|a| - 1 - e / 8], e % 8) != Bit(b[|a| - 1 - e / 8], e % 8)
  {
    MsgPolyBits(a, e);
    MsgPolyBits(b, e);
  }

  lemma ErrorFree(a: seq<bv8>, b: seq<bv8>)
    requires |a| == |b| && Error(a, b) == {}
    ensures a == b
  {
    forall k | 0 <= k < |a| ensures a[k] == b[k] {
      forall i ensures Bit(a[k], i) <==> Bit(b[k], i) {
        if 0 <= i < 8 {
          var e := 8 * (|a| - 1 - k) + i;
          ErrorBits(a, b, e);
          assert e / 8 == |a| - 1 - k && e % 8 == i;
        }
      }
      SameBits(a[k], b[k]);
    }
  }

  // ---------------------------------------------------------------- linearity and error detection

  function Xor(a: seq<bv8>, b: seq<bv8>): seq<bv8>
    requires |a| == |b|
  {
    seq(|a|, i requires 0 <= i < |a| => a[i] ^ b[i])
  }

  /** The bit of a message that stands for x^e. */
  predicate MsgBit(m: seq<bv8>, e: int) {
    0 <= e < 8 * |m| && Bit(m[|m| - 1 - e / 8], e % 8)
  }

  lemma XorMsgBit(a: seq<bv8>, b: seq<bv8>, e: int)
    requires |a| == |b|
    ensures MsgBit(Xor(a, b), e) <==> MsgBit(a, e) != MsgBit(b, e)
  {
    if 0 <= e < 8 * |a| {
      var k := |a| - 1 - e / 8;
      XorBit(a[k], b[k], e % 8);
    }
  }

  lemma MsgBitOf(m: seq<bv8>, e: int)
    ensures e in MsgPoly(m) <==> MsgBit(m, e)
  {
    MsgPolyBits(m, e);
  }

  lemma XorPolyBit(a: seq<bv8>, b: seq<bv8>, e: int)
    requires |a| == |b|
    ensures e in MsgPoly(Xor(a, b)) <==> e in Error(a, b)
  {
    var c := Xor(a, b);
    MsgBitOf(a, e);
    MsgBitOf(b, e);
    MsgBitOf(c, e);
    XorMsgBit(a, b, e);
  }

  lemma MsgPolyXor(a: seq<bv8>, b: seq<bv8>)
    requires |a| == |b|
    ensures MsgPoly(Xor(a, b)) == Error(a, b)
  {
    forall e ensures e in MsgPoly(Xor(a, b)) <==> e in Error(a, b) {
      XorPolyBit(a, b, e);
    }
  }

  lemma AddSwap(a: Poly, b: Poly, c: Poly, d: Poly)
    ensures Add(Add(a, b), Add(c, d)) == Add(Add(a, c), Add(b, d))
  {
  }

  /** The remainders of two messages add up to a remainder of their sum. */
  lemma ErrorCongruent(a: seq<bv8>, b: seq<bv8>)
    ensures Divisible(Add(Shift(Error(a, b), 8), Add(BytePoly(Crc8(a)), BytePoly(Crc8(b)))))
  {
    var ma, ra := Shift(MsgPoly(a), 8), BytePoly(Crc8(a));
    var mb, rb := Shift(MsgPoly(b), 8), BytePoly(Crc8(b));
    CrcDivides(a);
    CrcDivides(b);
    DivisibleAdd(Add(ma, ra), Add(mb, rb));
    AddSwap(ma, ra, mb, rb);
    ShiftAdd(MsgPoly(a), MsgPoly(b), 8);
  }

  /** The checksum is linear in messages of equal length. */
  lemma CrcLinear(a: seq<bv8>, b: seq<bv8>)
    requires |a| == |b|
    ensures Crc8(Xor(a, b)) == Crc8(a) ^ Crc8(b)
  {
    ErrorCongruent(a, b);
    BytePolyXor(Crc8(a), Crc8(b));
    MsgPolyXor(a, b);
    MsgPolyProper(Xor(a, b));
    RemainderIffDivisible(Shift(MsgPoly(Xor(a, b)), 8), BytePoly(Crc8(a) ^ Crc8(b)));
    CrcIsRemainder(Xor(a, b), Crc8(a) ^ Crc8(b));
  }

  /** Two messages, of any lengths, collide exactly when the generator divides their difference. */
  lemma CollisionIff(a: seq<bv8>, b: seq<bv8>)
    ensures Crc8(a) == Crc8(b) <==> Divisible(Error(a, b))
  {
    var high, low := Shift(Error(a, b), 8), Add(BytePoly(Crc8(a)), BytePoly(Crc8(b)));
    ErrorCongruent(a, b);
    if Crc8(a) == Crc8(b) {
      assert low == {};
      assert Add(high, low) == high;
      DivisibleShifted(Error(a, b), 8);
    }
    if Divisible(Error(a, b)) {
      ShiftedDivisible(Error(a, b), 8);
      DivisibleAdd(high, Add(high, low));
      assert Add(high, Add(high, low)) == low;
      NarrowMultipleIsZero(low, 0);
      assert forall e :: e in BytePoly(Crc8(a)) <==> e in BytePoly(Crc8(b)) by {
        forall e ensures e in BytePoly(Crc8(a)) <==> e in BytePoly(Crc8(b)) {
          assert e !in low;
        }
      }
      BytePolyInjective(Crc8(a), Crc8(b));
    }
  }

  /** The checksum has as many set bits as the message, modulo two. */
  lemma CrcParity(m: seq<bv8>)
    ensures |BytePoly(Crc8(m))| % 2 == |MsgPoly(m)| % 2
  {
    CrcDivides(m);
    CongruentParity(Shift(MsgPoly(m), 8), BytePoly(Crc8(m)));
    ShiftCard(MsgPoly(m), 8);
  }

  /** An odd number of flipped bits always changes the checksum. */
  lemma OddErrorDetected(a: seq<bv8>, b: seq<bv8>)
    requires |Error(a, b)| % 2 == 1
    ensures Crc8(a) != Crc8(b)
  {
    CollisionIff(a, b);
    if Divisible(Error(a, b)) {
      DivisibleIsEven(Error(a, b));
    }
  }

  /** Any change confined to eight consecutive bits, across bytes or not, changes the checksum. */
  lemma BurstDetected(a: seq<bv8>, b: seq<bv8>, low: int)
    requires |a| == |b| && a != b
    requires forall e | e in Error(a, b) :: low <= e < low + 8
    ensures Crc8(a) != Crc8(b)
  {
    CollisionIff(a, b);
    if Divisible(Error(a, b)) {
      NarrowMultipleIsZero(Error(a, b), low);
      ErrorFree(a, b);
    }
  }

  // ---------------------------------------------------------------- two-bit errors

  lemma {:induction false} StepsAdd(c: bv8, j: nat, k: nat)
    ensures Steps(Steps(c, j), k) == Steps(c, j + k)
  {
    if k > 0 {
      StepsAdd(c, j, k - 1);
    }
  }

  /** x^k is 1 modulo the generator. */
  predicate Cycles(k: nat) {
    Steps(1, k) == 1
  }

  lemma Order127()
    ensures Cycles(127)
  {
    assert Steps(1, 8) == 0x31;
    StepsAdd(1, 8, 8);
    assert Steps(0x31, 8) == 0xf4;
    StepsAdd(1, 16, 16);
    assert Steps(0xf4, 8) == 0x46;
    assert Steps(0x46, 8) == 0x9b;
    StepsAdd(0xf4, 8, 8);
    StepsAdd(1, 32, 8);
    assert Steps(0x9b, 8) == 0xd3;
    StepsAdd(1, 40, 8);
    assert Steps(0xd3, 8) == 0x57;
    StepsAdd(1, 48, 8);
    assert Steps(0x57, 8) == 0xe9;
    StepsAdd(1, 56, 8);
    assert Steps(0xe9, 8) == 0x49;
    StepsAdd(1, 64, 8);
    assert Steps(0x49, 8) == 0xb5;
    StepsAdd(1, 72, 8);
    assert Steps(0xb5, 8) == 0x4a;
    StepsAdd(1, 80, 8);
    assert Steps(0x4a, 8) == 0xe6;
    StepsAdd(1, 88, 8);
    assert Steps(0xe6, 8) == 0x67;
    StepsAdd(1, 96, 8);
    assert Steps(0x67, 8) == 0x2c;
    StepsAdd(1, 104, 8);
    assert Steps(0x2c, 8) == 0xfb;
    StepsAdd(1, 112, 8);
    assert Steps(0xfb, 8) == 0x68;
    StepsAdd(1, 120, 7);
    assert Steps(0x68, 7) == 1;
  }

  lemma CyclesAdd(j: nat, k: nat)
    requires Cycles(j)
    ensures Cycles(j + k) <==> Cycles(k)
  {
    StepsAdd(1, j, k);
  }

  lemma {:induction false} CyclesMul(n: nat, q: nat, r: nat)
    requires Cycles(n)
    ensures Cycles(n * q + r) <==> Cycles(r)
  {
    if q > 0 {
      CyclesMul(n, q - 1, r);
      assert n * q + r == n + (n * (q - 1) + r);
      CyclesAdd(n, n * (q - 1) + r);
    }
  }

  lemma Prime127(k: nat)
    requires 1 < k < 127
    ensures 127 % k != 0
  {
    if k > 11 {
      var n := 127 / k;
      assert 1 <= n <= 10;
      assert n * k != 127;
    }
  }

  lemma CyclesRem(n: nat, k: nat)
    requires 0 < k && Cycles(k)
    ensures Cycles(n) <==> Cycles(n % k)
  {
    assert k * (n / k) + n % k == n;
    CyclesMul(k, n / k, n % k);
  }

  lemma {:induction false} NoShortCycle(k: nat)
    requires 0 < k < 127
    ensures !Cycles(k)
  {
    assert Steps(1, 1) == 2;
    if Cycles(k) && k > 1 {
      Order127();
      CyclesRem(127, k);
      Prime127(k);
      NoShortCycle(127 % k);
    }
  }

  /** The powers of x repeat modulo the generator with period exactly 127. */
  lemma CyclesIff(k: nat)
    ensures Cycles(k) <==> k % 127 == 0
  {
    Order127();
    CyclesRem(k, 127);
    if k % 127 != 0 {
      NoShortCycle(k % 127);
    }
  }

  lemma PairDivisible(d: nat)
    ensures Divisible(Add({d}, {0})) <==> Cycles(d)
  {
    var r := BytePoly(Steps(1, d));
    assert BytePoly(1) == {0};
    StepsPoly(1, d);
    assert Shift({0}, d) == {d};
    if Divisible(Add({d}, {0})) {
      assert Add({0}, {d}) == Add({d}, {0});
      DivisibleChain({0}, {d}, r);
      NarrowMultipleIsZero(Add({0}, r), 0);
      assert forall e :: e in r <==> e in {0} by {
        forall e ensures e in r <==> e in {0} {
          assert e !in Add({0}, r);
        }
      }
      BytePolyInjective(Steps(1, d), 1);
    }
  }

  /** Two flipped bits go unnoticed exactly when their distance is a multiple of 127. */
  lemma TwoBitErrorDetectedIff(a: seq<bv8>, b: seq<bv8>, i: int, j: int)
    requires i < j && Error(a, b) == {i, j}
    ensures Crc8(a) != Crc8(b) <==> (j - i) % 127 != 0
  {
    CollisionIff(a, b);
    TwoTermsDivisibleIff(Error(a, b), i, j);
  }

  lemma TwoTermsDivisibleIff(error: Poly, i: int, j: int)
    requires i < j && error == {i, j}
    ensures Divisible(error) <==> (j - i) % 127 == 0
  {
    var pair := Add({j - i}, {0});
    PairShifted(i, j, pair);
    DivisibleShiftedIff(pair, i, error);
    PairDivisible(j - i);
    CyclesIff(j - i);
  }

  lemma PairShifted(i: int, j: int, pair: Poly)
    requires i < j && pair == Add({j - i}, {0})
    ensures Shift(pair, i) == {i, j}
  {
    assert pair == {j - i, 0};
    forall e ensures e in Shift(pair, i) <==> e in {i, j} {
      assert e - i in pair <==> e == j || e == i;
    }
  }
}
