/** The period of the CRC register. `Shift` is multiplication by x modulo
    x^16 + x^15 + x^2 + 1 (bit 15 of the register is the coefficient of 1), and x has
    order 32767 there: a lone bit returns to its place after 32767 shifts and no sooner. */
module CrcOrder {
  import opened Crc16
  import opened Arith

  /** The register holding the polynomial 1. */
  const ONE: bv16 := 0x8000

  /** x to the power `k`. */
  function Power(k: nat): bv16 {
    Shifts(k, ONE)
  }

  /** `t` where bit 15 of `a` is set, else 0. */
  function Pick(a: bv16, t: bv16): bv16 {
    (a >> 15) * t
  }

  function Mul4(a: bv16, t: bv16): bv16 {
    Xor(Xor(Pick(a, t), Pick(a << 1, Shift(t))),
        Xor(Pick(a << 2, Shift(Shift(t))), Pick(a << 3, Shift(Shift(Shift(t))))))
  }

  function Shift4(t: bv16): bv16 {
    Shift(Shift(Shift(Shift(t))))
  }

  /** Multiplication: the sum over the coefficients of `a`, each times its power of x times `t`. */
  function Mul(a: bv16, t: bv16): bv16 {
    Xor(Xor(Mul4(a, t), Mul4(a << 4, Shift4(t))),
        Xor(Mul4(a << 8, Shift4(Shift4(t))), Mul4(a << 12, Shift4(Shift4(Shift4(t))))))
  }

  lemma MulByOne(a: bv16)
    ensures Mul(a, ONE) == a
  {
  }

  lemma PickShift(a: bv16, t: bv16)
    ensures Pick(a, Shift(t)) == Shift(Pick(a, t))
  {
  }

  lemma Mul4Shift(a: bv16, t: bv16)
    ensures Mul4(a, Shift(t)) == Shift(Mul4(a, t))
  {
    hide Shift, Xor, Pick;
    var t1, t2, t3 := Shift(t), Shift(Shift(t)), Shift(Shift(Shift(t)));
    var p0, p1, p2, p3 := Pick(a, t), Pick(a << 1, t1), Pick(a << 2, t2), Pick(a << 3, t3);
    PickShift(a, t);
    PickShift(a << 1, t1);
    PickShift(a << 2, t2);
    PickShift(a << 3, t3);
    ShiftLinear(p0, p1);
    ShiftLinear(p2, p3);
    ShiftLinear(Xor(p0, p1), Xor(p2, p3));
  }

  lemma MulShift(a: bv16, t: bv16)
    ensures Mul(a, Shift(t)) == Shift(Mul(a, t))
  {
    hide Shift, Xor, Mul4;
    var t1, t2, t3 := Shift4(t), Shift4(Shift4(t)), Shift4(Shift4(Shift4(t)));
    var p0, p1, p2, p3 := Mul4(a, t), Mul4(a << 4, t1), Mul4(a << 8, t2), Mul4(a << 12, t3);
    Mul4Shift(a, t);
    Mul4Shift(a << 4, t1);
    Mul4Shift(a << 8, t2);
    Mul4Shift(a << 12, t3);
    ShiftLinear(p0, p1);
    ShiftLinear(p2, p3);
    ShiftLinear(Xor(p0, p1), Xor(p2, p3));
  }

  lemma {:induction false} ShiftLast(n: nat, r: bv16)
    ensures Shifts(n + 1, r) == Shift(Shifts(n, r))
    decreases n
  {
    hide Shift;
    if n > 0 {
      ShiftLast(n - 1, Shift(r));
    }
  }

  lemma {:induction false} ShiftsAdd(m: nat, n: nat, r: bv16)
    ensures Shifts(m + n, r) == Shifts(n, Shifts(m, r))
    decreases m
  {
    hide Shift;
    if m > 0 {
      ShiftsAdd(m - 1, n, Shift(r));
    }
  }

  /** Shifting `a` by `k` places multiplies it by x to the `k`. */
  lemma {:induction false} ShiftsIsMul(k: nat, a: bv16)
    ensures Shifts(k, a) == Mul(a, Power(k))
    decreases k
  {
    hide Shift, Mul;
    if k == 0 {
      MulByOne(a);
    } else {
      ShiftLast(k - 1, a);
      ShiftLast(k - 1, ONE);
      ShiftsIsMul(k - 1, a);
      MulShift(a, Power(k - 1));
    }
  }

  lemma PowerAdd(j: nat, k: nat)
    ensures Power(j + k) == Mul(Power(j), Power(k))
  {
    hide Shifts, Mul;
    ShiftsAdd(j, k, ONE);
    ShiftsIsMul(k, Power(j));
  }

  // ---------------------------------------------------------------- x^32767 = 1

  lemma Product(j: nat, k: nat, a: bv16, b: bv16)
    requires Power(j) == a && Power(k) == b
    ensures Power(j + k) == Mul(a, b)
  {
    PowerAdd(j, k);
  }

  /** Repeated squaring. */
  lemma PowersOfTwo()
    ensures Power(1) == 0x4000 && Power(8) == 0x0080 && Power(16) == 0xA001 && Power(32) == 0xE801
    ensures Power(64) == 0xC881 && Power(128) == 0x6080 && Power(256) == 0x8801 && Power(512) == 0xE081
    ensures Power(1024) == 0x6800 && Power(2048) == 0x2880 && Power(4096) == 0xA881 && Power(8192) == 0x4880
    ensures Power(16384) == 0x8081 && Power(32768) == 0x4000
  {
    hide Power;
    FirstPowers();
    Product(8, 8, 0x0080, 0x0080);
    Product(16, 16, 0xA001, 0xA001);
    Product(32, 32, 0xE801, 0xE801);
    Product(64, 64, 0xC881, 0xC881);
    Product(128, 128, 0x6080, 0x6080);
    Product(256, 256, 0x8801, 0x8801);
    Product(512, 512, 0xE081, 0xE081);
    Product(1024, 1024, 0x6800, 0x6800);
    Product(2048, 2048, 0x2880, 0x2880);
    Product(4096, 4096, 0xA881, 0xA881);
    Product(8192, 8192, 0x4880, 0x4880);
    Product(16384, 16384, 0x8081, 0x8081);
  }

  lemma FirstPowers()
    ensures Power(1) == 0x4000 && Power(8) == 0x0080
  {
  }

  // ---------------------------------------------------------------- and no smaller power is 1

  predicate Period(k: nat) {
    Power(k) == ONE
  }

  /** The three maximal proper divisors of 32767 are not periods. */
  lemma NotPeriods()
    ensures !Period(217) && !Period(1057) && !Period(4681)
  {
    hide Power;
    PowersOfTwo();
    Product(128, 64, 0x6080, 0xC881);
    Product(192, 16, Mul(0x6080, 0xC881), 0xA001);
    Product(208, 8, Power(208), 0x0080);
    Product(216, 1, Power(216), 0x4000);
    Product(1024, 32, 0x6800, 0xE801);
    Product(1056, 1, Power(1056), 0x4000);
    Product(4096, 512, 0xA881, 0xE081);
    Product(4608, 64, Power(4608), 0xC881);
    Product(4672, 8, Power(4672), 0x0080);
    Product(4680, 1, Power(4680), 0x4000);
  }

  lemma FullPeriod()
    ensures Period(32767)
  {
    hide Power, Shifts;
    PowersOfTwo();
    assert Power(32768) == Shift(Power(32767)) by { LastShift(32767); }
    assert Shift(ONE) == 0x4000;
    ShiftInjective(Power(32767), ONE);
  }

  lemma LastShift(n: nat)
    ensures Power(n + 1) == Shift(Power(n))
  {
    ShiftLast(n, ONE);
  }

  lemma PeriodDifference(j: nat, k: nat)
    requires Period(j) && Period(j + k)
    ensures Period(k)
  {
    hide Shifts;
    ShiftsAdd(j, k, ONE);
  }

  lemma {:induction false} PeriodMultiple(m: nat, g: nat)
    requires Period(g)
    ensures Period(m * g)
    decreases m
  {
    hide Shifts;
    if m == 0 {
      NoShift();
    } else {
      PeriodMultiple(m - 1, g);
      ShiftsAdd((m - 1) * g, g, ONE);
      assert m * g == (m - 1) * g + g;
    }
  }

  lemma NoShift()
    ensures Period(0)
  {
  }

  /** Euclid's algorithm on periods. */
  lemma {:induction false} CommonPeriod(a: nat, b: nat) returns (g: nat, p: nat, q: nat)
    requires a > 0 && b > 0 && Period(a) && Period(b)
    ensures g > 0 && Period(g) && a == p * g && b == q * g
    decreases a + b
  {
    hide Power;
    if a == b {
      g, p, q := a, 1, 1;
    } else if a < b {
      PeriodDifference(a, b - a);
      g, p, q := CommonPeriod(a, b - a);
      q := q + p;
    } else {
      PeriodDifference(b, a - b);
      g, p, q := CommonPeriod(a - b, b);
      p := p + q;
    }
  }

  /** No number from `d` to 181 divides 32767 = 7 * 31 * 151 but its three primes and 1. */
  predicate NoDivisorFrom(d: nat)
    requires d > 0
    decreases 182 - d
  {
    d > 181 || ((32767 % d != 0 || d == 1 || d == 7 || d == 31 || d == 151) && NoDivisorFrom(d + 1))
  }

  lemma NoDivisorBlock0()
    requires NoDivisorFrom(182)
    ensures NoDivisorFrom(146)
  {
    assert NoDivisorFrom(176);
    assert NoDivisorFrom(170);
    assert NoDivisorFrom(164);
    assert NoDivisorFrom(158);
    assert NoDivisorFrom(152);
  }

  lemma NoDivisorBlock1()
    requires NoDivisorFrom(146)
    ensures NoDivisorFrom(110)
  {
    assert NoDivisorFrom(140);
    assert NoDivisorFrom(134);
    assert NoDivisorFrom(128);
    assert NoDivisorFrom(122);
    assert NoDivisorFrom(116);
  }

  lemma NoDivisorBlock2()
    requires NoDivisorFrom(110)
    ensures NoDivisorFrom(74)
  {
    assert NoDivisorFrom(104);
    assert NoDivisorFrom(98);
    assert NoDivisorFrom(92);
    assert NoDivisorFrom(86);
    assert NoDivisorFrom(80);
  }

  lemma NoDivisorBlock3()
    requires NoDivisorFrom(74)
    ensures NoDivisorFrom(38)
  {
    assert NoDivisorFrom(68);
    assert NoDivisorFrom(62);
    assert NoDivisorFrom(56);
    assert NoDivisorFrom(50);
    assert NoDivisorFrom(44);
  }

  lemma NoDivisorBlock4()
    requires NoDivisorFrom(38)
    ensures NoDivisorFrom(1)
  {
    assert NoDivisorFrom(32);
    assert NoDivisorFrom(26);
    assert NoDivisorFrom(20);
    assert NoDivisorFrom(14);
    assert NoDivisorFrom(11);
    assert NoDivisorFrom(8);
    assert NoDivisorFrom(5);
    assert NoDivisorFrom(2);
  }

  lemma NoSmallDivisor()
    ensures NoDivisorFrom(1)
  {
    assert NoDivisorFrom(182);
    hide NoDivisorFrom;
    NoDivisorBlock0();
    NoDivisorBlock1();
    NoDivisorBlock2();
    NoDivisorBlock3();
    NoDivisorBlock4();
  }

  lemma {:induction false} DivisorFrom(d: nat, e: nat, f: nat)
    requires 0 < d <= e <= 181 && NoDivisorFrom(d) && e * f == 32767
    ensures e == 1 || e == 7 || e == 31 || e == 151
    decreases e - d
  {
    if d == e {
      assert 32767 % e == 0 by { ExactQuotient(e, f); }
    } else {
      DivisorFrom(d + 1, e, f);
    }
  }

  lemma ExactQuotient(e: nat, f: nat)
    requires e > 0 && e * f == 32767
    ensures 32767 % e == 0
  {
    var q, r := 32767 / e, 32767 % e;
    assert e * (f - q) == r;
    if f - q <= -1 {
      Monotone(f - q, -1, e);
    } else if f - q >= 1 {
      Monotone(1, f - q, e);
    }
  }

  lemma DivisorOf32767(g: nat, q: nat)
    requires g > 0 && q > 1 && q * g == 32767
    ensures g == 1 || g == 7 || g == 31 || g == 151 || g == 217 || g == 1057 || g == 4681
  {
    hide NoDivisorFrom;
    NoSmallDivisor();
    if g <= 181 {
      DivisorFrom(1, g, q);
    } else {
      if q > 181 {
        Monotone(182, q, g);
      }
      DivisorFrom(1, q, g);
    }
  }

  /** x has order 32767: the register cannot repeat sooner. */
  lemma NoShorterPeriod(k: nat)
    requires 0 < k < 32767
    ensures !Period(k)
  {
    hide Period;
    if Period(k) {
      FullPeriod();
      var g, p, q := CommonPeriod(k, 32767);
      if q <= p {
        Monotone(q, p, g);
      }
      DivisorOf32767(g, q);
      NotPeriods();
      if g == 1 || g == 7 || g == 31 {
        PeriodMultiple(217 / g, g);
      } else if g == 151 {
        PeriodMultiple(7, g);
      }
      assert false;
    }
  }

  /** The periods are exactly the multiples of 32767. */
  lemma PeriodIff(k: nat)
    ensures Period(k) <==> k % 32767 == 0
  {
    hide Period;
    var q, r := k / 32767, k % 32767;
    FullPeriod();
    PeriodMultiple(q, 32767);
    if r > 0 {
      NoShorterPeriod(r);
      if Period(k) {
        PeriodDifference(q * 32767, r);
      }
    }
  }
}
