/** The bit-serial CRC-16 of sections 2.5.1.2 and 6.2.2 of the MODBUS over Serial
    Line Specification and Implementation Guide V1.02: reflected polynomial 0xA001,
    register shifted right, least significant message bit first.

    Both byte-at-a-time implementations of the repository (`N_CRC16` in call.c and
    `calc_crc16` in tools/pacgen.py) are proved against the functions declared here. */
module Crc16 {
  import opened Bytes

  function Xor(a: bv16, b: bv16): bv16 {
    a ^ b
  }

  function Xor8(a: byte, b: byte): byte {
    a ^ b
  }

  function Widen(b: byte): bv16 {
    b as bv16
  }

  /** One shift of the register, the polynomial XORed in when a one falls out. */
  function Shift(r: bv16): bv16 {
    (r >> 1) ^ ((r & 1) * 0xA001)
  }

  /** The step as the guide words it. */
  lemma ShiftIsModbusStep(r: bv16)
    ensures Shift(r) == if r & 1 == 1 then (r >> 1) ^ 0xA001 else r >> 1
  {
    assert r & 1 == 1 || r & 1 == 0;
  }

  function Shifts(n: nat, r: bv16): bv16
    decreases n
  {
    if n == 0 then r else Shifts(n - 1, Shift(r))
  }

  function Word(b: bool): bv16 {
    if b then 1 else 0
  }

  predicate LowBit(w: bv16) {
    w & 1 == 1
  }

  function Half(w: bv16): bv16 {
    w >> 1
  }

  function Absorb(r: bv16, b: bool): bv16 {
    Shift(Xor(r, Word(b)))
  }

  function CrcBits(r: bv16, bits: seq<bool>): bv16
    decreases |bits|
  {
    if bits == [] then r else CrcBits(Absorb(r, bits[0]), bits[1..])
  }

  /** The low `n` bits of a word, least significant first. */
  function WordBits(n: nat, w: bv16): (s: seq<bool>)
    ensures |s| == n
    decreases n
  {
    if n == 0 then [] else [LowBit(w)] + WordBits(n - 1, Half(w))
  }

  /** The eight bits of a byte in transmission order. */
  function ByteBits(b: byte): (s: seq<bool>)
    ensures |s| == 8
  {
    WordBits(8, Widen(b))
  }

  function MessageBits(m: seq<byte>): (s: seq<bool>)
    ensures |s| == 8 * |m|
  {
    if m == [] then [] else ByteBits(m[0]) + MessageBits(m[1..])
  }

  /** The register after the bits of `m`, starting from `r`. */
  function Crc(r: bv16, m: seq<byte>): bv16 {
    CrcBits(r, MessageBits(m))
  }

  /** The frame check value of call.c: the register preloaded with ones. */
  function FrameCrc(m: seq<byte>): bv16 {
    Crc(0xFFFF, m)
  }

  function HighByte(c: bv16): byte {
    (c >> 8) as byte
  }

  function LowByte(c: bv16): byte {
    (c & 0xFF) as byte
  }

  /** The two check bytes as call.c and parse.c append them: high byte first. */
  function CrcBytes(m: seq<byte>): (s: seq<byte>)
    ensures |s| == 2
  {
    [HighByte(FrameCrc(m)), LowByte(FrameCrc(m))]
  }

  /** A payload with its check bytes behind it. */
  function Closed(payload: seq<byte>): seq<byte> {
    payload + CrcBytes(payload)
  }

  lemma SplitInjective(c: bv16, d: bv16)
    requires HighByte(c) == HighByte(d) && LowByte(c) == LowByte(d)
    ensures c == d
  {
  }

  // ---------------------------------------------------------------- bits of words and messages

  /** `w` has no one bits at position `n` or above. */
  predicate Fits(n: nat, w: bv16)
    decreases n
  {
    if n == 0 then w == 0 else Fits(n - 1, Half(w))
  }

  lemma {:induction false} WordBitsInjective(n: nat, v: bv16, w: bv16)
    requires Fits(n, v) && Fits(n, w) && WordBits(n, v) == WordBits(n, w)
    ensures v == w
  {
    if n > 0 {
      WordBitsUncons(n, v, w);
      WordBitsInjective(n - 1, Half(v), Half(w));
      SameLowAndRest(v, w);
    }
  }

  lemma WordBitsUncons(n: nat, v: bv16, w: bv16)
    requires n > 0 && WordBits(n, v) == WordBits(n, w)
    ensures LowBit(v) == LowBit(w) && WordBits(n - 1, Half(v)) == WordBits(n - 1, Half(w))
  {
    assert WordBits(n, v)[0] == WordBits(n, w)[0];
    assert WordBits(n, v)[1..] == WordBits(n - 1, Half(v)) && WordBits(n, w)[1..] == WordBits(n - 1, Half(w));
  }

  lemma SameLowAndRest(v: bv16, w: bv16)
    requires LowBit(v) == LowBit(w) && Half(v) == Half(w)
    ensures v == w
  {
  }

  lemma ByteFits(b: byte)
    ensures Fits(8, Widen(b))
  {
  }

  lemma {:induction false} MessageBitsInjective(m: seq<byte>, n: seq<byte>)
    requires |m| == |n| && MessageBits(m) == MessageBits(n)
    ensures m == n
  {
    if m != [] {
      assert MessageBits(m)[..8] == ByteBits(m[0]) && MessageBits(n)[..8] == ByteBits(n[0]);
      assert MessageBits(m)[8..] == MessageBits(m[1..]) && MessageBits(n)[8..] == MessageBits(n[1..]);
      SameByteBits(m[0], n[0]);
      MessageBitsInjective(m[1..], n[1..]);
      assert m == [m[0]] + m[1..] && n == [n[0]] + n[1..];
    }
  }

  lemma SameByteBits(b: byte, c: byte)
    requires ByteBits(b) == ByteBits(c)
    ensures b == c
  {
    ByteFits(b);
    ByteFits(c);
    WordBitsInjective(8, Widen(b), Widen(c));
  }

  lemma {:induction false} MessageBitsConcat(m: seq<byte>, n: seq<byte>)
    ensures MessageBits(m + n) == MessageBits(m) + MessageBits(n)
  {
    if m == [] {
      assert m + n == n;
    } else {
      assert (m + n)[1..] == m[1..] + n;
      MessageBitsConcat(m[1..], n);
    }
  }

  // ---------------------------------------------------------------- algebra of the register

  lemma ShiftLinear(r: bv16, s: bv16)
    ensures Shift(Xor(r, s)) == Xor(Shift(r), Shift(s))
  {
  }

  lemma {:induction false} ShiftsLinear(n: nat, r: bv16, s: bv16)
    ensures Shifts(n, Xor(r, s)) == Xor(Shifts(n, r), Shifts(n, s))
    decreases n
  {
    hide Shift, Xor;
    if n > 0 {
      ShiftLinear(r, s);
      ShiftsLinear(n - 1, Shift(r), Shift(s));
    }
  }

  lemma ShiftInjective(r: bv16, s: bv16)
    requires Shift(r) == Shift(s)
    ensures r == s
  {
  }

  lemma {:induction false} ShiftsInjective(n: nat, r: bv16, s: bv16)
    requires Shifts(n, r) == Shifts(n, s)
    ensures r == s
    decreases n
  {
    hide Shift;
    if n > 0 {
      ShiftsInjective(n - 1, Shift(r), Shift(s));
      ShiftInjective(r, s);
    }
  }

  lemma {:induction false} CrcBitsConcat(r: bv16, a: seq<bool>, b: seq<bool>)
    ensures CrcBits(r, a + b) == CrcBits(CrcBits(r, a), b)
    decreases |a|
  {
    hide Absorb;
    if a == [] {
      assert a + b == b;
    } else {
      assert (a + b)[1..] == a[1..] + b;
      CrcBitsConcat(Absorb(r, a[0]), a[1..], b);
    }
  }

  /** Feeding a message in pieces gives the CRC of the whole. */
  lemma CrcConcat(r: bv16, m: seq<byte>, n: seq<byte>)
    ensures Crc(r, m + n) == Crc(Crc(r, m), n)
  {
    hide CrcBits, MessageBits;
    MessageBitsConcat(m, n);
    CrcBitsConcat(r, MessageBits(m), MessageBits(n));
  }

  /** A bit that has not reached the bottom of the register may be XORed in early. */
  lemma PeelBit(r: bv16, w: bv16)
    ensures Shift(Xor(r, w)) == Xor(Absorb(r, LowBit(w)), Half(w))
  {
    assert Word(LowBit(w)) == w & 1;
    PeelWord(r, w);
  }

  lemma PeelWord(r: bv16, w: bv16)
    ensures Shift(Xor(r, w)) == Xor(Shift(Xor(r, w & 1)), Half(w))
  {
  }

  /** XORing a word in first and XORing its bits in one by one agree. */
  lemma {:induction false} WordFirst(n: nat, r: bv16, w: bv16)
    requires Fits(n, w)
    ensures Shifts(n, Xor(r, w)) == CrcBits(r, WordBits(n, w))
    decreases n
  {
    hide Absorb, Shift, LowBit, Half;
    if n == 0 {
      assert Xor(r, 0) == r;
    } else {
      PeelBit(r, w);
      WordFirst(n - 1, Absorb(r, LowBit(w)), Half(w));
      assert WordBits(n, w)[1..] == WordBits(n - 1, Half(w));
    }
  }

  /** The guide's byte loop: XOR the byte into the register, then shift eight times. */
  lemma CrcOfByte(r: bv16, b: byte)
    ensures Crc(r, [b]) == Shifts(8, Xor(r, Widen(b)))
  {
    hide Shift, CrcBits, Shifts, WordBits, Xor;
    ByteFits(b);
    WordFirst(8, r, Widen(b));
    assert MessageBits([b]) == ByteBits(b) + [] == ByteBits(b);
  }
}
