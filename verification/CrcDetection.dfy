/** What the check bytes of a frame detect, for every payload: any burst of up to sixteen
    bits inside the payload (CrcWindows has the bursts that reach into the check bytes),
    any odd number of flipped bits, two flipped payload bits unless they lie a multiple of
    32767 apart, and any one, two or three flipped bits anywhere in a frame if and only if
    it has at most 4095 bytes. */
module CrcDetection {
  import opened Bytes
  import opened Crc16
  import opened CrcOrder

  // ---------------------------------------------------------------- differences of registers

  function Distance(a: seq<bool>, b: seq<bool>): (d: nat)
    requires |a| == |b|
    ensures d == 0 <==> a == b
    decreases |a|
  {
    if a == [] then 0
    else
      assert a == [a[0]] + a[1..] && b == [b[0]] + b[1..];
      (if a[0] == b[0] then 0 else 1) + Distance(a[1..], b[1..])
  }

  lemma {:induction false} DistanceConcat(a: seq<bool>, b: seq<bool>, c: seq<bool>, d: seq<bool>)
    requires |a| == |b| && |c| == |d|
    ensures Distance(a + c, b + d) == Distance(a, b) + Distance(c, d)
    decreases |a|
  {
    if a == [] {
      assert a + c == c && b + d == d;
    } else {
      assert (a + c)[1..] == a[1..] + c && (b + d)[1..] == b[1..] + d;
      DistanceConcat(a[1..], b[1..], c, d);
    }
  }

  /** The XOR of two registers that differ by `d` and then absorb `a` and `b`. */
  function Drift(d: bv16, a: seq<bool>, b: seq<bool>): bv16
    requires |a| == |b|
    decreases |a|
  {
    if a == [] then d else Drift(Absorb(d, a[0] != b[0]), a[1..], b[1..])
  }

  lemma AbsorbDifference(r: bv16, s: bv16, x: bool, y: bool)
    ensures Xor(Absorb(r, x), Absorb(s, y)) == Absorb(Xor(r, s), x != y)
  {
    hide Shift;
    ShiftLinear(Xor(r, Word(x)), Xor(s, Word(y)));
    assert Xor(Xor(r, Word(x)), Xor(s, Word(y))) == Xor(Xor(r, s), Word(x != y)) by {
      assert Xor(Word(x), Word(y)) == Word(x != y);
      XorSwap(r, Word(x), s, Word(y));
    }
  }

  lemma XorAssociative(a: bv16, b: bv16, c: bv16)
    ensures Xor(Xor(a, b), c) == Xor(a, Xor(b, c))
  {
  }

  lemma XorCommutative(a: bv16, b: bv16)
    ensures Xor(a, b) == Xor(b, a)
  {
  }

  lemma XorSwap(r: bv16, x: bv16, s: bv16, y: bv16)
    ensures Xor(Xor(r, x), Xor(s, y)) == Xor(Xor(r, s), Xor(x, y))
  {
    hide Xor;
    XorAssociative(r, x, Xor(s, y));
    XorAssociative(x, s, y);
    XorCommutative(x, s);
    XorAssociative(s, x, y);
    XorAssociative(r, s, Xor(x, y));
  }

  lemma {:induction false} DriftIsDifference(r: bv16, s: bv16, a: seq<bool>, b: seq<bool>)
    requires |a| == |b|
    ensures Xor(CrcBits(r, a), CrcBits(s, b)) == Drift(Xor(r, s), a, b)
    decreases |a|
  {
    hide Xor, Absorb;
    if a != [] {
      AbsorbDifference(r, s, a[0], b[0]);
      DriftIsDifference(Absorb(r, a[0]), Absorb(s, b[0]), a[1..], b[1..]);
    }
  }

  lemma AbsorbZero(d: bv16)
    ensures Absorb(d, false) == Shift(d) && Absorb(0, false) == 0 && Absorb(0, true) == Shift(1)
  {
    assert Xor(d, Word(false)) == d && Xor(0, Word(true)) == 1;
  }

  lemma XorZero(r: bv16, s: bv16)
    ensures Xor(r, r) == 0 && (Xor(r, s) == 0 ==> r == s)
  {
  }

  /** Equal bits only shift the difference along. */
  lemma {:induction false} DriftOfEqual(d: bv16, a: seq<bool>)
    ensures Drift(d, a, a) == Shifts(|a|, d)
    decreases |a|
  {
    hide Shift, Absorb;
    if a != [] {
      AbsorbZero(d);
      DriftOfEqual(Shift(d), a[1..]);
    }
  }

  /** One flipped bit leaves a lone bit, shifted. */
  lemma {:induction false} OneFlip(a: seq<bool>, b: seq<bool>) returns (k: nat)
    requires |a| == |b| && Distance(a, b) == 1
    ensures 1 <= k <= |a| && Drift(0, a, b) == Shifts(k, 1)
    decreases |a|
  {
    hide Shift, Absorb;
    AbsorbZero(0);
    if a[0] == b[0] {
      k := OneFlip(a[1..], b[1..]);
    } else {
      DriftOfEqual(Shift(1), a[1..]);
      k := |a|;
    }
  }

  /** The two bit strings differ at `i`, and nowhere else; at `i` and `j`, and nowhere else. */
  predicate FlippedAt(a: seq<bool>, b: seq<bool>, i: nat) {
    |a| == |b| && i < |a| && forall t :: 0 <= t < |a| ==> (a[t] != b[t] <==> t == i)
  }

  predicate FlippedAtBoth(a: seq<bool>, b: seq<bool>, i: nat, j: nat) {
    |a| == |b| && i < j < |a| && forall t :: 0 <= t < |a| ==> (a[t] != b[t] <==> t == i || t == j)
  }

  lemma {:induction false} FlipPosition(a: seq<bool>, b: seq<bool>) returns (i: nat)
    requires |a| == |b| && Distance(a, b) == 1
    ensures FlippedAt(a, b, i)
    decreases |a|
  {
    if a[0] != b[0] {
      i := 0;
    } else {
      i := FlipPosition(a[1..], b[1..]);
      i := i + 1;
    }
  }

  lemma {:induction false} FlipPositions(a: seq<bool>, b: seq<bool>) returns (i: nat, j: nat)
    requires |a| == |b| && Distance(a, b) == 2
    ensures FlippedAtBoth(a, b, i, j)
    decreases |a|
  {
    if a[0] != b[0] {
      i := 0;
      j := FlipPosition(a[1..], b[1..]);
    } else {
      i, j := FlipPositions(a[1..], b[1..]);
      i := i + 1;
    }
    j := j + 1;
  }

  /** A difference of a lone bit shifted `e` places meets a flipped bit. */
  lemma {:induction false} SecondFlip(e: nat, a: seq<bool>, b: seq<bool>, j: nat)
    requires FlippedAt(a, b, j)
    ensures Drift(Shifts(e, 1), a, b) == Shifts(|a| - j, Xor(Shifts(e + j, 1), 1))
    decreases |a|
  {
    hide Shift, Absorb, Xor, Shifts;
    var d := Shifts(e, 1);
    if j > 0 {
      AbsorbZero(d);
      ShiftLast(e, 1);
      SecondFlip(e + 1, a[1..], b[1..], j - 1);
    } else {
      assert a[1..] == b[1..];
      DriftOfEqual(Absorb(d, true), a[1..]);
      AbsorbOne(|a| - 1, d);
    }
  }

  lemma AbsorbOne(n: nat, d: bv16)
    ensures Shifts(n, Absorb(d, true)) == Shifts(n + 1, Xor(d, 1))
  {
    hide Shift, Xor;
  }

  /** Two flipped bits leave a lone bit XORed with itself shifted by their distance. */
  lemma {:induction false} TwoFlips(a: seq<bool>, b: seq<bool>, i: nat, j: nat)
    requires FlippedAtBoth(a, b, i, j)
    ensures Drift(0, a, b) == Shifts(|a| - j, Xor(Shifts(j - i, 1), 1))
    decreases |a|
  {
    hide Shift, Absorb, Xor;
    AbsorbZero(0);
    if i > 0 {
      TwoFlips(a[1..], b[1..], i - 1, j - 1);
    } else {
      SecondFlip(1, a[1..], b[1..], j - 1);
    }
  }

  lemma {:induction false} ShiftsOfZero(n: nat)
    ensures Shifts(n, 0) == 0
    decreases n
  {
    if n > 0 {
      assert Shift(0) == 0;
      ShiftsOfZero(n - 1);
    }
  }

  // ---------------------------------------------------------------- bursts

  /** The largest word of `n` bits, for n up to 16. */
  function Largest(n: nat): bv16 {
    match n
    case 0 => 0
    case 1 => 0x1
    case 2 => 0x3
    case 3 => 0x7
    case 4 => 0xF
    case 5 => 0x1F
    case 6 => 0x3F
    case 7 => 0x7F
    case 8 => 0xFF
    case 9 => 0x1FF
    case 10 => 0x3FF
    case 11 => 0x7FF
    case 12 => 0xFFF
    case 13 => 0x1FFF
    case 14 => 0x3FFF
    case 15 => 0x7FFF
    case _ => 0xFFFF
  }

  lemma LargestDoubles(n: nat)
    requires n <= 15
    ensures Doubles(Largest(n), Largest(n + 1))
  {
  }

  predicate Doubles(top: bv16, next: bv16) {
    top <= 0x7FFF && next == (top << 1) | 1
  }

  predicate AtMost(v: bv16, top: bv16) {
    v <= top
  }

  function Push(v: bv16, b: bool): bv16 {
    (v << 1) | Word(b)
  }

  predicate Below(n: nat, w: bv16) {
    AtMost(w, Largest(n))
  }

  /** `w` is `v` with the bit `b` pushed in below. */
  predicate Extends(w: bv16, v: bv16, b: bool) {
    Half(w) == v && LowBit(w) == b
  }

  lemma PushOne(v: bv16, top: bv16, next: bv16)
    requires AtMost(v, top) && Doubles(top, next)
    ensures AtMost(Push(v, true), next) && Extends(Push(v, true), v, true)
  {
  }

  lemma PushZero(v: bv16, top: bv16, next: bv16)
    requires AtMost(v, top) && Doubles(top, next)
    ensures AtMost(Push(v, false), next) && Extends(Push(v, false), v, false)
  {
  }

  lemma PushBelow(n: nat, v: bv16, b: bool)
    requires n <= 15 && Below(n, v)
    ensures Below(n + 1, Push(v, b)) && Extends(Push(v, b), v, b)
  {
    hide Push, Largest, Extends, AtMost, Doubles;
    LargestDoubles(n);
    if b {
      PushOne(v, Largest(n), Largest(n + 1));
    } else {
      PushZero(v, Largest(n), Largest(n + 1));
    }
  }

  lemma BitsOfExtended(n: nat, w: bv16, v: bv16, b: bool)
    requires Extends(w, v, b) && Fits(n, v)
    ensures Fits(n + 1, w) && WordBits(n + 1, w) == [b] + WordBits(n, v)
  {
    hide LowBit;
  }

  /** Sixteen bits or fewer are the bits of a word. */
  lemma {:induction false} SomeWord(bits: seq<bool>) returns (w: bv16)
    requires |bits| <= 16
    ensures Below(|bits|, w) && Fits(|bits|, w) && WordBits(|bits|, w) == bits
    decreases |bits|
  {
    hide *;
    if bits == [] {
      w := EmptyWord();
    } else {
      var v := SomeWord(bits[1..]);
      w := Push(v, bits[0]);
      PushBelow(|bits| - 1, v, bits[0]);
      BitsOfExtended(|bits| - 1, w, v, bits[0]);
      assert bits == [bits[0]] + bits[1..];
    }
  }

  lemma EmptyWord() returns (w: bv16)
    ensures Below(0, w) && Fits(0, w) && WordBits(0, w) == []
  {
    w := 0;
  }

  /** Absorbing up to sixteen bits is injective in those bits. */
  lemma WindowInjective(r: bv16, a: seq<bool>, b: seq<bool>)
    requires |a| == |b| <= 16 && CrcBits(r, a) == CrcBits(r, b)
    ensures a == b
  {
    hide Largest, CrcBits, Shifts, Fits, WordBits, Xor;
    var v := SomeWord(a);
    var w := SomeWord(b);
    WordFirst(|a|, r, v);
    WordFirst(|b|, r, w);
    ShiftsInjective(|a|, Xor(r, v), Xor(r, w));
    XorCancel(r, v, w);
  }

  lemma XorCancel(r: bv16, v: bv16, w: bv16)
    requires Xor(r, v) == Xor(r, w)
    ensures v == w
  {
  }

  /** Absorbing the same bits keeps different registers different. */
  lemma SuffixInjective(r: bv16, s: bv16, t: seq<bool>)
    requires CrcBits(r, t) == CrcBits(s, t)
    ensures r == s
  {
    hide CrcBits, Xor, Shifts, Drift;
    DriftIsDifference(r, s, t, t);
    DriftOfEqual(Xor(r, s), t);
    XorZero(CrcBits(r, t), CrcBits(s, t));
    ShiftsOfZero(|t|);
    ShiftsInjective(|t|, Xor(r, s), 0);
    XorZero(r, s);
  }

  /** Two payloads whose bits differ, but only inside one window of sixteen bits, have
      different check values. */
  lemma BurstChangesCrc(m: seq<byte>, n: seq<byte>, i: nat, k: nat)
    requires |m| == |n| && m != n && k <= 16 && i + k <= 8 * |m|
    requires MessageBits(m)[..i] == MessageBits(n)[..i] && MessageBits(m)[i + k..] == MessageBits(n)[i + k..]
    ensures FrameCrc(m) != FrameCrc(n)
  {
    hide CrcBits, MessageBits;
    var a, b := MessageBits(m), MessageBits(n);
    var r := CrcBits(0xFFFF, a[..i]);
    SplitWindow(a, i, k);
    SplitWindow(b, i, k);
    if FrameCrc(m) == FrameCrc(n) {
      SuffixInjective(CrcBits(r, a[i..i + k]), CrcBits(r, b[i..i + k]), a[i + k..]);
      WindowInjective(r, a[i..i + k], b[i..i + k]);
      assert a == a[..i] + a[i..i + k] + a[i + k..];
      assert b == b[..i] + b[i..i + k] + b[i + k..];
      MessageBitsInjective(m, n);
    }
  }

  lemma SplitWindow(a: seq<bool>, i: nat, k: nat)
    requires i + k <= |a|
    ensures CrcBits(0xFFFF, a) == CrcBits(CrcBits(CrcBits(0xFFFF, a[..i]), a[i..i + k]), a[i + k..])
  {
    hide CrcBits;
    CrcBitsConcat(0xFFFF, a[..i], a[i..i + k]);
    CrcBitsConcat(0xFFFF, a[..i] + a[i..i + k], a[i + k..]);
    assert a == a[..i] + a[i..i + k] + a[i + k..];
  }

  /** In particular, altering one or both of any two adjacent payload bytes changes the check value ... */
  lemma AdjacentBytesChangeCrc(m: seq<byte>, n: seq<byte>, i: nat)
    requires |m| == |n| && m != n && i + 2 <= |m|
    requires m[..i] == n[..i] && m[i + 2..] == n[i + 2..]
    ensures FrameCrc(m) != FrameCrc(n)
  {
    hide MessageBits, FrameCrc;
    SplitAtByte(m, i);
    SplitAtByte(n, i);
    SplitAtByte(m, i + 2);
    SplitAtByte(n, i + 2);
    BurstChangesCrc(m, n, 8 * i, 16);
  }

  lemma SplitAtByte(m: seq<byte>, i: nat)
    requires i <= |m|
    ensures MessageBits(m)[..8 * i] == MessageBits(m[..i]) && MessageBits(m)[8 * i..] == MessageBits(m[i..])
  {
    hide MessageBits;
    assert m == m[..i] + m[i..];
    MessageBitsConcat(m[..i], m[i..]);
  }

  // ---------------------------------------------------------------- parity

  predicate Odd(bits: seq<bool>)
    decreases |bits|
  {
    if bits == [] then false else bits[0] != Odd(bits[1..])
  }

  /** The parity of the `n` low bits of a register. */
  predicate ParityOf(n: nat, w: bv16) {
    Odd(WordBits(n, w))
  }

  predicate Parity(w: bv16) {
    ParityOf(16, w)
  }

  lemma ParityPeel(n: nat, w: bv16)
    ensures ParityOf(n + 1, w) == (LowBit(w) != ParityOf(n, Half(w)))
  {
    hide LowBit;
    assert WordBits(n + 1, w)[1..] == WordBits(n, Half(w));
  }

  lemma LowBitOfXor(v: bv16, w: bv16)
    ensures LowBit(Xor(v, w)) == (LowBit(v) != LowBit(w))
  {
    assert (v ^ w) & 1 == (v & 1) ^ (w & 1);
  }

  lemma HalfOfXor(v: bv16, w: bv16)
    ensures Half(Xor(v, w)) == Xor(Half(v), Half(w))
  {
    assert (v ^ w) >> 1 == (v >> 1) ^ (w >> 1);
  }

  lemma {:induction false} ParityOfXor(n: nat, v: bv16, w: bv16)
    ensures ParityOf(n, Xor(v, w)) == (ParityOf(n, v) != ParityOf(n, w))
    decreases n
  {
    if n > 0 {
      hide ParityOf, LowBit, Xor, Half;
      LowBitOfXor(v, w);
      HalfOfXor(v, w);
      ParityPeel(n - 1, v);
      ParityPeel(n - 1, w);
      ParityPeel(n - 1, Xor(v, w));
      ParityOfXor(n - 1, Half(v), Half(w));
    }
  }

  lemma {:induction false} ParityOfFitting(n: nat, w: bv16)
    requires Fits(n, w)
    ensures ParityOf(n + 1, w) == ParityOf(n, w)
    decreases n
  {
    hide ParityOf, LowBit;
    ParityPeel(n, w);
    if n == 0 {
      NoParity();
    } else {
      ParityPeel(n - 1, w);
      ParityOfFitting(n - 1, Half(w));
    }
  }

  lemma NoParity()
    ensures !LowBit(0) && !ParityOf(0, 0) && Half(0) == 0
  {
  }

  function Half4(w: bv16): bv16 {
    Half(Half(Half(Half(w))))
  }

  lemma FitsFourMore(n: nat, w: bv16)
    requires Fits(n, Half4(w))
    ensures Fits(n + 4, w)
  {
    hide Half;
    assert Fits(n + 1, Half(Half(Half(w))));
    assert Fits(n + 2, Half(Half(w)));
    assert Fits(n + 3, Half(w));
  }

  lemma ShiftedOut(w: bv16)
    ensures Half4(Half4(Half4(Half4(w)))) == 0
  {
  }

  lemma AnyFits(w: bv16)
    ensures Fits(16, w) && Fits(15, Half(w))
  {
    hide Half4, Half;
    ShiftedOut(w);
    FitsFourMore(0, Half4(Half4(Half4(w))));
    FitsFourMore(4, Half4(Half4(w)));
    FitsFourMore(8, Half4(w));
    FitsFourMore(12, w);
  }

  predicate LowParity(w: bv16) {
    ((LowBit(w) != LowBit(w >> 1)) != (LowBit(w >> 2) != LowBit(w >> 3)))
    != ((LowBit(w >> 4) != LowBit(w >> 5)) != (LowBit(w >> 6) != LowBit(w >> 7)))
  }

  function UpperHalf(w: bv16): bv16 {
    w >> 8
  }

  /** Eight bits at a time. */
  lemma ParityOfByte(n: nat, w: bv16)
    ensures ParityOf(n + 8, w) == (LowParity(w) != ParityOf(n, UpperHalf(w)))
  {
    hide ParityOf, LowBit;
    ParityPeel(n + 7, w);
    ParityPeel(n + 6, Half(w));
    ParityPeel(n + 5, w >> 2);
    ParityPeel(n + 4, w >> 3);
    ParityPeel(n + 3, w >> 4);
    ParityPeel(n + 2, w >> 5);
    ParityPeel(n + 1, w >> 6);
    ParityPeel(n, w >> 7);
  }

  lemma PolynomialParity()
    ensures Parity(0xA001) && !Parity(0) && !Parity(0xFFFF)
  {
    hide ParityOf;
    ParityOfByte(8, 0xA001);
    ParityOfByte(0, 0x00A0);
    ParityOfByte(8, 0xFFFF);
    ParityOfByte(0, 0x00FF);
    ParityOfByte(8, 0);
    ParityOfByte(0, 0);
    NoParity();
  }

  lemma ShiftByCases(r: bv16)
    ensures Shift(r) == Xor(Half(r), if LowBit(r) then 0xA001 else 0)
  {
    ShiftIsModbusStep(r);
    assert Xor(Half(r), 0) == Half(r);
  }

  lemma ShiftKeepsParity(r: bv16)
    ensures Parity(Shift(r)) == Parity(r)
  {
    hide ParityOf, Shift, LowBit, Fits, Xor;
    ShiftByCases(r);
    PolynomialParity();
    ParityOfXor(16, Half(r), if LowBit(r) then 0xA001 else 0);
    AnyFits(r);
    ParityOfFitting(15, Half(r));
    ParityPeel(15, r);
  }

  lemma ParityOfXorBit(r: bv16, b: bool)
    ensures Parity(Xor(r, Word(b))) == (Parity(r) != b)
  {
    hide ParityOf, Xor;
    ParityOfXor(16, r, Word(b));
    PolynomialParity();
    OneIsOdd();
  }

  lemma OneIsOdd()
    ensures Parity(1)
  {
    hide ParityOf;
    ParityPeel(15, 1);
    ParityPeel(15, 0);
    PolynomialParity();
    assert LowBit(1) && Half(1) == Half(0);
  }

  /** x + 1 divides the polynomial: the register keeps the parity of what it absorbed. */
  lemma {:induction false} CrcKeepsParity(r: bv16, bits: seq<bool>)
    ensures Parity(CrcBits(r, bits)) == (Parity(r) != Odd(bits))
    decreases |bits|
  {
    hide Parity, Shift, Xor, Word;
    if bits != [] {
      ParityOfXorBit(r, bits[0]);
      ShiftKeepsParity(Xor(r, Word(bits[0])));
      CrcKeepsParity(Absorb(r, bits[0]), bits[1..]);
    }
  }

  lemma {:induction false} OddConcat(a: seq<bool>, b: seq<bool>)
    ensures Odd(a + b) == (Odd(a) != Odd(b))
    decreases |a|
  {
    if a == [] {
      assert a + b == b;
    } else {
      assert (a + b)[1..] == a[1..] + b;
      OddConcat(a[1..], b);
    }
  }

  lemma {:induction false} OddDistance(a: seq<bool>, b: seq<bool>)
    requires |a| == |b|
    ensures (Distance(a, b) % 2 == 1) == (Odd(a) != Odd(b))
    decreases |a|
  {
    if a != [] {
      OddDistance(a[1..], b[1..]);
    }
  }

  lemma HalvesOfRegister(c: bv16)
    ensures UpperHalf(c) == Widen(HighByte(c)) && LowParity(c) == LowParity(Widen(LowByte(c)))
  {
  }

  /** The check bytes have the parity of the register they came from. */
  lemma ParityOfCheckBytes(c: bv16)
    ensures Parity(c) == (ParityOf(8, Widen(HighByte(c))) != ParityOf(8, Widen(LowByte(c))))
  {
    hide ParityOf, LowParity, UpperHalf, LowByte, HighByte, Widen;
    HalvesOfRegister(c);
    ParityOfByte(8, c);
    ParityOfByte(0, Widen(LowByte(c)));
    ParityOfNone(UpperHalf(Widen(LowByte(c))));
  }

  lemma ParityOfNone(w: bv16)
    ensures !ParityOf(0, w)
  {
  }

  // ---------------------------------------------------------------- frames

  /** The comparison of `handle_rec`: the last two bytes are the check bytes of the rest. */
  predicate CheckBytesMatch(f: seq<byte>)
    requires |f| >= 2
  {
    f[|f| - 2..] == CrcBytes(f[..|f| - 2])
  }

  /** Whatever is closed this way passes the receiver's comparison. */
  lemma ClosedFramesMatch(payload: seq<byte>)
    ensures |Closed(payload)| == |payload| + 2 && CheckBytesMatch(Closed(payload))
  {
    hide CrcBytes;
    var f := Closed(payload);
    assert f[..|f| - 2] == payload && f[|f| - 2..] == CrcBytes(payload);
  }

  /** The bits of a register as its two check bytes carry them. */
  function FieldBits(c: bv16): (s: seq<bool>)
    ensures |s| == 16
  {
    ByteBits(HighByte(c)) + ByteBits(LowByte(c))
  }

  /** The bits of a frame that passes the comparison: payload, then the check bytes. */
  lemma FrameBits(f: seq<byte>)
    requires |f| >= 2 && CheckBytesMatch(f)
    ensures MessageBits(f) == MessageBits(f[..|f| - 2]) + FieldBits(FrameCrc(f[..|f| - 2]))
  {
    hide MessageBits, FrameCrc, CrcBytes, FieldBits;
    var m := f[..|f| - 2];
    assert f == m + CrcBytes(m);
    MessageBitsConcat(m, CrcBytes(m));
    CheckBits(m);
  }

  lemma CheckBits(m: seq<byte>)
    ensures MessageBits(CrcBytes(m)) == FieldBits(FrameCrc(m))
  {
    hide MessageBits, FrameCrc, ByteBits, HighByte, LowByte;
    BitsOfTwo(HighByte(FrameCrc(m)), LowByte(FrameCrc(m)));
  }

  /** ... and, with the check bytes kept, makes the comparison fail. */
  lemma AdjacentBytesDetected(f: seq<byte>, g: seq<byte>, i: nat)
    requires 2 <= |f| == |g| && f != g && CheckBytesMatch(f) && i + 4 <= |f|
    requires f[..i] == g[..i] && f[i + 2..] == g[i + 2..]
    ensures !CheckBytesMatch(g)
  {
    hide FrameCrc, HighByte, LowByte;
    var k := |f| - 2;
    var m, n := f[..k], g[..k];
    assert f[k..] == f[i + 2..][k - i - 2..] && g[k..] == g[i + 2..][k - i - 2..];
    assert f == m + f[k..] && g == n + g[k..];
    assert m[..i] == f[..i] && n[..i] == g[..i];
    assert m[i + 2..] == f[i + 2..][..k - i - 2] && n[i + 2..] == g[i + 2..][..k - i - 2];
    AdjacentBytesChangeCrc(m, n, i);
    if CheckBytesMatch(g) {
      SplitInjective(FrameCrc(m), FrameCrc(n));
    }
  }

  /** Every frame that passes the comparison has an even number of one bits. */
  lemma MatchingFrameIsEven(f: seq<byte>)
    requires |f| >= 2 && CheckBytesMatch(f)
    ensures !Odd(MessageBits(f))
  {
    hide Odd, MessageBits, FieldBits, Parity, FrameCrc, CheckBytesMatch;
    var m := f[..|f| - 2];
    FrameBits(f);
    OddConcat(MessageBits(m), FieldBits(FrameCrc(m)));
    FrameCrcParity(m);
    FieldParity(FrameCrc(m));
  }

  lemma FrameCrcParity(m: seq<byte>)
    ensures Parity(FrameCrc(m)) == Odd(MessageBits(m))
  {
    hide Odd, MessageBits, Parity, CrcBits;
    CrcKeepsParity(0xFFFF, MessageBits(m));
    PolynomialParity();
  }

  lemma FieldParity(c: bv16)
    ensures Odd(FieldBits(c)) == Parity(c)
  {
    hide Odd, ParityOf, Parity, HighByte, LowByte, ByteBits, Widen;
    OddConcat(ByteBits(HighByte(c)), ByteBits(LowByte(c)));
    ParityOfCheckBytes(c);
    ParityIsOdd(HighByte(c));
    ParityIsOdd(LowByte(c));
  }

  lemma ParityIsOdd(b: byte)
    ensures ParityOf(8, Widen(b)) == Odd(ByteBits(b))
  {
  }

  lemma BitsOfTwo(b: byte, c: byte)
    ensures MessageBits([b, c]) == ByteBits(b) + ByteBits(c)
  {
    hide ByteBits;
    assert [b, c][1..] == [c] && [c][1..] == [];
    assert MessageBits([c]) == ByteBits(c) + [];
  }

  /** No odd number of flipped bits, payload or check bytes, turns a good frame into a good frame. */
  lemma OddFlipsDetected(f: seq<byte>, g: seq<byte>)
    requires |f| == |g| >= 2 && CheckBytesMatch(f) && Distance(MessageBits(f), MessageBits(g)) % 2 == 1
    ensures !CheckBytesMatch(g)
  {
    hide CheckBytesMatch, MessageBits, Odd;
    OddDistance(MessageBits(f), MessageBits(g));
    MatchingFrameIsEven(f);
    if CheckBytesMatch(g) {
      MatchingFrameIsEven(g);
    }
  }

  // ---------------------------------------------------------------- two flipped bits

  /** The register of a message starting from ones, compared with that of another. */
  lemma FrameDrift(m: seq<byte>, n: seq<byte>)
    requires |m| == |n|
    ensures Xor(FrameCrc(m), FrameCrc(n)) == Drift(0, MessageBits(m), MessageBits(n))
  {
    hide Xor, CrcBits, Drift, MessageBits;
    DriftIsDifference(0xFFFF, 0xFFFF, MessageBits(m), MessageBits(n));
    XorZero(0xFFFF, 0xFFFF);
  }

  /** What a changed byte, `tail` behind it, does to the check value of any message. */
  lemma ByteChanges(q: seq<byte>, y: byte, p: byte, tail: seq<byte>)
    ensures Xor(FrameCrc(q + [y] + tail), FrameCrc(q + [Xor8(y, p)] + tail)) == Shifts(8 + 8 * |tail|, Widen(p))
  {
    hide Crc, Xor, Xor8, Shifts, Widen;
    var r, z := Crc(0xFFFF, q), Xor8(y, p);
    CrcConcat(0xFFFF, q, [y]);
    CrcConcat(0xFFFF, q, [z]);
    CrcConcat(0xFFFF, q + [y], tail);
    CrcConcat(0xFFFF, q + [z], tail);
    CrcOfByte(r, y);
    CrcOfByte(r, z);
    ByteDrift(r, y, p);
    ShiftsLinear(8, Xor(r, Widen(y)), Xor(r, Widen(z)));
    TailDrift(Crc(r, [y]), Crc(r, [z]), tail);
    ShiftsAdd(8, 8 * |tail|, Widen(p));
  }

  lemma ByteDrift(r: bv16, y: byte, p: byte)
    ensures Xor(Xor(r, Widen(y)), Xor(r, Widen(Xor8(y, p)))) == Widen(p)
  {
  }

  lemma TailDrift(r: bv16, s: bv16, tail: seq<byte>)
    ensures Xor(Crc(r, tail), Crc(s, tail)) == Shifts(8 * |tail|, Xor(r, s))
  {
    hide CrcBits, Xor, Shifts, Drift, MessageBits;
    DriftIsDifference(r, s, MessageBits(tail), MessageBits(tail));
    DriftOfEqual(Xor(r, s), MessageBits(tail));
  }

  lemma LowPowers()
    ensures Power(0) == 0x8000 && Power(1) == 0x4000 && Power(2) == 0x2000 && Power(3) == 0x1000
    ensures Power(4) == 0x0800 && Power(5) == 0x0400 && Power(6) == 0x0200 && Power(7) == 0x0100
    ensures Power(8) == 0x0080 && Power(9) == 0x0040 && Power(10) == 0x0020 && Power(11) == 0x0010
    ensures Power(12) == 0x0008 && Power(13) == 0x0004 && Power(14) == 0x0002 && Power(15) == 0x0001
  {
    assert Power(0) == 0x8000;
    hide Power;
    LastShift(0);
    LastShift(1);
    LastShift(2);
    LastShift(3);
    LastShift(4);
    LastShift(5);
    LastShift(6);
    LastShift(7);
    LastShift(8);
    LastShift(9);
    LastShift(10);
    LastShift(11);
    LastShift(12);
    LastShift(13);
    LastShift(14);
  }

  lemma ShiftedLoneBit(k: nat)
    ensures Shifts(k, 1) == Power(15 + k)
  {
    LowPowers();
    hide Shifts;
    ShiftsAdd(15, k, ONE);
  }

  lemma PowersDiffer(j: nat, k: nat)
    requires j < k < j + 32767
    ensures Power(j) != Power(k)
  {
    hide Power;
    SamePower(j, k - j);
    PeriodIff(k - j);
  }

  /** Two flipped payload bits go unnoticed exactly when they lie a multiple of 32767 bits
      apart, in a message of any length. */
  lemma TwoFlipsUnnoticedIff(m: seq<byte>, n: seq<byte>, i: nat, j: nat)
    requires |m| == |n| && FlippedAtBoth(MessageBits(m), MessageBits(n), i, j)
    ensures FrameCrc(m) == FrameCrc(n) <==> (j - i) % 32767 == 0
  {
    hide Xor, Shifts, Drift, MessageBits, Power, FrameCrc, FlippedAtBoth;
    FrameDrift(m, n);
    DistinctPositions(MessageBits(m), MessageBits(n), i, j);
    TwoFlips(MessageBits(m), MessageBits(n), i, j);
    var k, f := |MessageBits(m)| - j, j - i;
    XorZero(FrameCrc(m), FrameCrc(n));
    ShiftedToZero(k, Xor(Shifts(f, 1), 1));
    XorZero(Shifts(f, 1), 1);
    LoneBitReturns(f);
  }

  lemma DistinctPositions(a: seq<bool>, b: seq<bool>, i: nat, j: nat)
    requires FlippedAtBoth(a, b, i, j)
    ensures |a| == |b| && i < j < |a|
  {
  }

  lemma ShiftedToZero(k: nat, w: bv16)
    ensures Shifts(k, w) == 0 <==> w == 0
  {
    hide Shifts;
    ShiftsOfZero(k);
    if Shifts(k, w) == 0 {
      ShiftsInjective(k, w, 0);
    }
  }

  lemma LoneBitReturns(f: nat)
    ensures Shifts(f, 1) == 1 <==> f % 32767 == 0
  {
    hide Shifts, Power;
    LowPowers();
    ShiftedLoneBit(f);
    SamePower(15, f);
    PeriodIff(f);
  }

  lemma SamePower(j: nat, f: nat)
    ensures Power(j + f) == Power(j) <==> Period(f)
  {
    hide Shifts;
    ShiftsAdd(f, j, ONE);
    if Power(j + f) == Power(j) {
      ShiftsInjective(j, ONE, Power(f));
    }
  }

  /** So below 4096 bytes two flipped payload bits always change the check value. */
  lemma TwoFlipsChangeCrc(m: seq<byte>, n: seq<byte>)
    requires |m| == |n| <= 4095 && Distance(MessageBits(m), MessageBits(n)) == 2
    ensures FrameCrc(m) != FrameCrc(n)
  {
    hide MessageBits, FrameCrc;
    var i, j := FlipPositions(MessageBits(m), MessageBits(n));
    TwoFlipsUnnoticedIff(m, n, i, j);
  }

  function Double(w: bv16): bv16 {
    w << 1
  }

  /** The word with only bit `t` set, for t below 8. */
  function LoneBit(t: nat): bv16 {
    match t
    case 0 => 1
    case 1 => 2
    case 2 => 4
    case 3 => 8
    case 4 => 16
    case 5 => 32
    case 6 => 64
    case _ => 128
  }

  lemma LoneBitDoubles(t: nat)
    requires t <= 6
    ensures LoneBit(t + 1) == Double(LoneBit(t))
  {
  }

  lemma XorOfSameLow(v: bv16, w: bv16)
    requires LowBit(v) == LowBit(w)
    ensures Xor(v, w) == Double(Xor(Half(v), Half(w)))
  {
    assert (v ^ w) & 1 == (v & 1) ^ (w & 1);
  }

  lemma XorOfSameHalf(v: bv16, w: bv16)
    requires LowBit(v) != LowBit(w) && Half(v) == Half(w)
    ensures Xor(v, w) == 1
  {
  }

  lemma DistanceOfWords(n: nat, v: bv16, w: bv16)
    requires n > 0
    ensures Distance(WordBits(n, v), WordBits(n, w)) ==
            (if LowBit(v) == LowBit(w) then 0 else 1) + Distance(WordBits(n - 1, Half(v)), WordBits(n - 1, Half(w)))
  {
    hide LowBit, Half;
    var a, b := WordBits(n, v), WordBits(n, w);
    assert a[1..] == WordBits(n - 1, Half(v)) && b[1..] == WordBits(n - 1, Half(w));
  }

  /** Words of at most eight bits that differ in one bit. */
  lemma {:induction false} OneBitApart(n: nat, v: bv16, w: bv16) returns (t: nat)
    requires n <= 8 && Fits(n, v) && Fits(n, w) && Distance(WordBits(n, v), WordBits(n, w)) == 1
    ensures t < n && Xor(v, w) == LoneBit(t)
    decreases n
  {
    if n > 0 {
      hide Xor, LowBit, Half, Double, LoneBit, Distance, WordBits;
      DistanceOfWords(n, v, w);
      if LowBit(v) == LowBit(w) {
        var u := OneBitApart(n - 1, Half(v), Half(w));
        XorOfSameLow(v, w);
        LoneBitDoubles(u);
        t := u + 1;
      } else {
        WordBitsInjective(n - 1, Half(v), Half(w));
        XorOfSameHalf(v, w);
        FirstLoneBit();
        t := 0;
      }
    }
  }

  lemma FirstLoneBit()
    ensures LoneBit(0) == 1
  {
  }

  lemma XorOfHighApart(c: bv16, d: bv16, x: bv16)
    requires LowByte(c) == LowByte(d) && Xor(Widen(HighByte(c)), Widen(HighByte(d))) == x
    ensures Xor(c, d) == x << 8
  {
    assert c & 0xFF == d & 0xFF;
  }

  lemma XorOfLowApart(c: bv16, d: bv16, x: bv16)
    requires HighByte(c) == HighByte(d) && Xor(Widen(LowByte(c)), Widen(LowByte(d))) == x
    ensures Xor(c, d) == x
  {
  }

  lemma LoneBitIsPower(t: nat)
    requires t < 8
    ensures LoneBit(t) == Power(15 - t) && LoneBit(t) << 8 == Power(7 - t)
  {
    LowPowers();
  }

  /** Registers one bit apart in the frame differ by one of the first sixteen powers of x. */
  lemma FieldOneBitApart(c: bv16, d: bv16) returns (s: nat)
    requires Distance(FieldBits(c), FieldBits(d)) == 1
    ensures s <= 15 && Xor(c, d) == Power(s)
  {
    hide Power, Xor, LoneBit, Distance, WordBits, HighByte, LowByte, Widen;
    var p, q := HighByte(c), HighByte(d);
    var u, v := LowByte(c), LowByte(d);
    DistanceConcat(ByteBits(p), ByteBits(q), ByteBits(u), ByteBits(v));
    ByteFits(p);
    ByteFits(q);
    ByteFits(u);
    ByteFits(v);
    if Distance(ByteBits(p), ByteBits(q)) == 1 {
      SameByteBits(u, v);
      var t := OneBitApart(8, Widen(p), Widen(q));
      XorOfHighApart(c, d, LoneBit(t));
      LoneBitIsPower(t);
      s := 7 - t;
    } else {
      SameByteBits(p, q);
      var t := OneBitApart(8, Widen(u), Widen(v));
      XorOfLowApart(c, d, LoneBit(t));
      LoneBitIsPower(t);
      s := 15 - t;
    }
  }

  /** A flipped payload bit never looks like a flipped check bit. */
  lemma OneFlipIsNotOneCheckBit(m: seq<byte>, n: seq<byte>)
    requires |m| == |n| <= 4093 && Distance(MessageBits(m), MessageBits(n)) == 1
    ensures Distance(FieldBits(FrameCrc(m)), FieldBits(FrameCrc(n))) != 1
  {
    hide Power, Xor, Drift, MessageBits, FrameCrc, FieldBits, Distance;
    if Distance(FieldBits(FrameCrc(m)), FieldBits(FrameCrc(n))) == 1 {
      var s := FieldOneBitApart(FrameCrc(m), FrameCrc(n));
      FrameDrift(m, n);
      var k := OneFlip(MessageBits(m), MessageBits(n));
      ShiftedLoneBit(k);
      PowersDiffer(s, 15 + k);
    }
  }

  /** Two different frames of one length that both pass the comparison differ in at least
      four bits: one, two or three flipped bits anywhere in a frame are always detected. */
  lemma MatchingFramesFarApart(f: seq<byte>, g: seq<byte>)
    requires 2 <= |f| == |g| <= 4095 && f != g && CheckBytesMatch(f) && CheckBytesMatch(g)
    ensures Distance(MessageBits(f), MessageBits(g)) >= 4
  {
    hide MessageBits, FieldBits, FrameCrc, Odd, CheckBytesMatch;
    var m, n := f[..|f| - 2], g[..|g| - 2];
    var c, d := FrameCrc(m), FrameCrc(n);
    FrameBits(f);
    FrameBits(g);
    DistanceConcat(MessageBits(m), MessageBits(n), FieldBits(c), FieldBits(d));
    MatchingFrameIsEven(f);
    MatchingFrameIsEven(g);
    OddDistance(MessageBits(f), MessageBits(g));
    if MessageBits(f) == MessageBits(g) {
      MessageBitsInjective(f, g);
    } else if MessageBits(m) == MessageBits(n) {
      MessageBitsInjective(m, n);
    } else if Distance(MessageBits(m), MessageBits(n)) == 1 {
      OneFlipIsNotOneCheckBit(m, n);
    } else if Distance(MessageBits(m), MessageBits(n)) == 2 {
      TwoFlipsChangeCrc(m, n);
      if FieldBits(c) == FieldBits(d) {
        SameField(c, d);
      }
    }
  }

  lemma SameField(c: bv16, d: bv16)
    requires FieldBits(c) == FieldBits(d)
    ensures c == d
  {
    hide ByteBits, HighByte, LowByte;
    assert FieldBits(c)[..8] == ByteBits(HighByte(c)) && FieldBits(d)[..8] == ByteBits(HighByte(d));
    assert FieldBits(c)[8..] == ByteBits(LowByte(c)) && FieldBits(d)[8..] == ByteBits(LowByte(d));
    SameByteBits(HighByte(c), HighByte(d));
    SameByteBits(LowByte(c), LowByte(d));
    SplitInjective(c, d);
  }

  // ---------------------------------------------------------------- frames of 4096 bytes and more

  /** One bits among the low `n` of a word. */
  function Ones(n: nat, w: bv16): nat
    decreases n
  {
    if n == 0 then 0 else (if LowBit(w) then 1 else 0) + Ones(n - 1, Half(w))
  }

  /** Words are as many bits apart as their difference has. */
  lemma {:induction false} DistanceIsOnes(n: nat, v: bv16, w: bv16)
    ensures Distance(WordBits(n, v), WordBits(n, w)) == Ones(n, Xor(v, w))
    decreases n
  {
    hide Xor, LowBit, Half;
    if n > 0 {
      DistanceOfWords(n, v, w);
      LowBitOfXor(v, w);
      HalfOfXor(v, w);
      DistanceIsOnes(n - 1, Half(v), Half(w));
    }
  }

  lemma ByteDistance(y: byte, p: byte)
    ensures Distance(ByteBits(y), ByteBits(Xor8(y, p))) == Ones(8, Widen(p))
  {
    assert Xor(Widen(y), Widen(Xor8(y, p))) == Widen(p);
    hide WordBits, Distance, Ones, Xor, Xor8, Widen;
    DistanceIsOnes(8, Widen(y), Widen(Xor8(y, p)));
  }

  lemma FieldDistance(c: bv16, d: bv16)
    ensures Distance(FieldBits(c), FieldBits(d)) == Ones(8, Xor(c, d) >> 8) + Ones(8, Xor(c, d) & 0xFF)
  {
    HalvesOfDifference(c, d);
    hide WordBits, Distance, Ones, Xor, HighByte, LowByte, Widen;
    DistanceConcat(ByteBits(HighByte(c)), ByteBits(HighByte(d)), ByteBits(LowByte(c)), ByteBits(LowByte(d)));
    DistanceIsOnes(8, Widen(HighByte(c)), Widen(HighByte(d)));
    DistanceIsOnes(8, Widen(LowByte(c)), Widen(LowByte(d)));
  }

  lemma HalvesOfDifference(c: bv16, d: bv16)
    ensures Xor(Widen(HighByte(c)), Widen(HighByte(d))) == Xor(c, d) >> 8
    ensures Xor(Widen(LowByte(c)), Widen(LowByte(d))) == Xor(c, d) & 0xFF
    ensures Xor(c, d) & 0xFF == 0 ==> LowByte(c) == LowByte(d)
  {
  }

  lemma LoneOnes()
    ensures Ones(8, 0) == 0 && Ones(8, Widen(1)) == 1 && Ones(8, 0x80) == 1
  {
  }

  lemma NoDistance(a: seq<bool>)
    ensures Distance(a, a) == 0
  {
  }

  /** One flipped bit, 4094 bytes from the end of a payload, flips one check bit. */
  lemma FarFlip(q: seq<byte>, y: byte, tail: seq<byte>)
    requires |tail| == 4093
    ensures var m, n := q + [y] + tail, q + [Xor8(y, 1)] + tail;
            && Distance(MessageBits(m), MessageBits(n)) == 1
            && Distance(FieldBits(FrameCrc(m)), FieldBits(FrameCrc(n))) == 1
  {
    hide MessageBits, FieldBits, FrameCrc, Xor, Xor8, Shifts, ByteBits, Distance, Power, Ones;
    var z := Xor8(y, 1);
    BitsAround(q, y, tail);
    BitsAround(q, z, tail);
    LoneOnes();
    ByteDistance(y, 1);
    DistanceConcat(MessageBits(q), MessageBits(q), ByteBits(y), ByteBits(z));
    DistanceConcat(MessageBits(q) + ByteBits(y), MessageBits(q) + ByteBits(z), MessageBits(tail), MessageBits(tail));
    NoDistance(MessageBits(q));
    NoDistance(MessageBits(tail));
    ByteChanges(q, y, 1, tail);
    ShiftedLoneBit(32752);
    FullPeriod();
    FieldDistance(FrameCrc(q + [y] + tail), FrameCrc(q + [z] + tail));
  }

  lemma BitsAround(q: seq<byte>, y: byte, tail: seq<byte>)
    ensures MessageBits(q + [y] + tail) == MessageBits(q) + ByteBits(y) + MessageBits(tail)
  {
    hide ByteBits;
    MessageBitsConcat(q, [y]);
    MessageBitsConcat(q + [y], tail);
    assert MessageBits([y]) == ByteBits(y) + [];
  }

  /** From 4096 bytes on, every passing frame has another two flipped bits away. */
  lemma TwoBitsSlip(f: seq<byte>) returns (g: seq<byte>)
    requires |f| >= 4096 && CheckBytesMatch(f)
    ensures |g| == |f| && CheckBytesMatch(g) && Distance(MessageBits(f), MessageBits(g)) == 2
  {
    hide MessageBits, FieldBits, FrameCrc, Xor8, Distance, CheckBytesMatch, Closed;
    var m := f[..|f| - 2];
    var j := |m| - 4094;
    var q, y, tail := m[..j], m[j], m[j + 1..];
    assert m == q + [y] + tail;
    var n := q + [Xor8(y, 1)] + tail;
    g := Closed(n);
    ClosedFramesMatch(n);
    ClosedPayload(n);
    FarFlip(q, y, tail);
    FrameBits(f);
    FrameBits(g);
    DistanceConcat(MessageBits(m), MessageBits(n), FieldBits(FrameCrc(m)), FieldBits(FrameCrc(n)));
  }

  lemma ClosedPayload(n: seq<byte>)
    ensures |Closed(n)| == |n| + 2 && Closed(n)[..|Closed(n)| - 2] == n
  {
    hide CrcBytes;
  }

  /** Two different frames of `n` bytes that both pass the comparison. */
  predicate BothPass(n: nat, f: seq<byte>, g: seq<byte>) {
    2 <= n == |f| == |g| && f != g && CheckBytesMatch(f) && CheckBytesMatch(g)
  }

  /** Passing frames of one length are always four or more bits apart exactly up to 4095 bytes. */
  lemma FarApartIff(n: nat)
    requires n >= 2
    ensures (forall f, g :: BothPass(n, f, g) ==> Distance(MessageBits(f), MessageBits(g)) >= 4) <==> n <= 4095
  {
    hide CheckBytesMatch, MessageBits, Distance;
    if n <= 4095 {
      forall f, g | BothPass(n, f, g)
        ensures Distance(MessageBits(f), MessageBits(g)) >= 4
      {
        MatchingFramesFarApart(f, g);
      }
    } else {
      var m := seq(n - 2, _ => 0);
      ClosedFramesMatch(m);
      var f := Closed(m);
      var g := TwoBitsSlip(f);
      NoDistance(MessageBits(f));
      assert BothPass(n, f, g);
    }
  }
}
