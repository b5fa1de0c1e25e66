/** Errors confined to a few consecutive bits of a whole frame, payload and check bytes alike.
    A window inside the payload, or inside the check bytes, lets nothing through. The check
    bytes travel high byte first, so a window across their border can: which ones do is decided
    exactly by how many of its bits lie on either side, and nine is the shortest that does. Of
    seventeen bits or more, every window does. */
module CrcWindows {
  import opened Bytes
  import opened Crc16
  import opened CrcDetection
  import CrcOrder
  import CrcTables

  /** The two bit strings agree outside the `k` bits from `i` on. */
  predicate DifferOnlyIn(a: seq<bool>, b: seq<bool>, i: nat, k: nat) {
    |a| == |b| && i + k <= |a| && a[..i] == b[..i] && a[i + k..] == b[i + k..]
  }

  /** `g` is another frame that passes the comparison, altered from `f` only inside the window. */
  predicate SlipsThrough(f: seq<byte>, g: seq<byte>, i: nat, k: nat) {
    2 <= |f| == |g| && f != g && CheckBytesMatch(g) && DifferOnlyIn(MessageBits(f), MessageBits(g), i, k)
  }

  /** How many bits of the window belong to the payload; the others are check bits. */
  function PayloadPart(f: seq<byte>, i: nat, k: nat): (a: nat)
    requires |f| >= 2
    ensures a <= k
  {
    var p := 8 * (|f| - 2);
    if i + k <= p then k else if i < p then p - i else 0
  }

  /** The windows of `a` payload bits and `t` check bits that let something through. */
  predicate Weak(a: nat, t: nat) {
    (a == 1 && t >= 9) || (a >= 2 && t >= 3 && a + t >= 9) || (a >= 1 && a + t >= 17)
  }

  // ---------------------------------------------------------------- bits of words

  lemma {:induction false} FitsXor(n: nat, v: bv16, w: bv16)
    requires Fits(n, v) && Fits(n, w)
    ensures Fits(n, Xor(v, w))
    decreases n
  {
    hide Half, Xor;
    if n == 0 {
      XorZero(0, 0);
    } else {
      HalfOfXor(v, w);
      FitsXor(n - 1, Half(v), Half(w));
    }
  }

  lemma {:induction false} FitsMore(n: nat, m: nat, w: bv16)
    requires Fits(n, w) && n <= m
    ensures Fits(m, w)
    decreases m
  {
    if n > 0 {
      FitsMore(n - 1, m - 1, Half(w));
    } else if m > 0 {
      assert Half(0) == 0;
      FitsMore(0, m - 1, w);
    }
  }

  lemma BitsAfter(n: nat, w: bv16, t: nat)
    requires 0 < t <= n
    ensures WordBits(n, w)[t..] == WordBits(n - 1, Half(w))[t - 1..]
  {
    hide LowBit, Half;
  }

  /** Words agree from bit `t` on exactly when their difference fits in `t` bits. */
  lemma {:induction false} SameFrom(n: nat, v: bv16, w: bv16, t: nat)
    requires t <= n && Fits(n, v) && Fits(n, w)
    ensures WordBits(n, v)[t..] == WordBits(n, w)[t..] <==> Fits(t, Xor(v, w))
    decreases t
  {
    hide Half, Xor, WordBits;
    if t == 0 {
      XorZero(v, w);
      if WordBits(n, v)[0..] == WordBits(n, w)[0..] {
        assert WordBits(n, v)[0..] == WordBits(n, v) && WordBits(n, w)[0..] == WordBits(n, w);
        WordBitsInjective(n, v, w);
      }
    } else {
      BitsAfter(n, v, t);
      BitsAfter(n, w, t);
      HalfOfXor(v, w);
      SameFrom(n - 1, Half(v), Half(w), t - 1);
    }
  }

  /** No one bits below position `j`. */
  predicate Clear(j: nat, w: bv16)
    decreases j
  {
    j == 0 || (!LowBit(w) && Clear(j - 1, Half(w)))
  }

  lemma {:induction false} SameUpTo(n: nat, v: bv16, w: bv16, j: nat)
    requires j <= n && Clear(j, Xor(v, w))
    ensures WordBits(n, v)[..j] == WordBits(n, w)[..j]
    decreases j
  {
    hide LowBit, Half, Xor;
    if j > 0 {
      LowBitOfXor(v, w);
      HalfOfXor(v, w);
      SameUpTo(n - 1, Half(v), Half(w), j - 1);
      var a, b := WordBits(n - 1, Half(v)), WordBits(n - 1, Half(w));
      assert ([LowBit(v)] + a)[..j] == [LowBit(v)] + a[..j - 1];
      assert ([LowBit(w)] + b)[..j] == [LowBit(w)] + b[..j - 1];
    }
  }

  // ---------------------------------------------------------------- windows on one side

  /** A window of two joined bit strings, seen from each of them. */
  lemma WindowOfBoth(a: seq<bool>, b: seq<bool>, c: seq<bool>, d: seq<bool>, i: nat, k: nat)
    requires |a| == |b| && |c| == |d| && i + k <= |a| + |c|
    ensures i >= |a| ==> (DifferOnlyIn(a + c, b + d, i, k) <==> a == b && DifferOnlyIn(c, d, i - |a|, k))
    ensures i + k <= |a| ==> (DifferOnlyIn(a + c, b + d, i, k) <==> c == d && DifferOnlyIn(a, b, i, k))
    ensures i < |a| < i + k ==>
      (DifferOnlyIn(a + c, b + d, i, k) <==> a[..i] == b[..i] && c[i + k - |a|..] == d[i + k - |a|..])
  {
    var s, t := a + c, b + d;
    if i >= |a| {
      assert s[..i] == a + c[..i - |a|] && t[..i] == b + d[..i - |a|];
      assert s[i + k..] == c[i - |a| + k..] && t[i + k..] == d[i - |a| + k..];
      if s[..i] == t[..i] {
        assert a == s[..i][..|a|] && c[..i - |a|] == s[..i][|a|..];
        assert b == t[..i][..|a|] && d[..i - |a|] == t[..i][|a|..];
      }
    } else if i + k <= |a| {
      assert s[..i] == a[..i] && t[..i] == b[..i];
      assert s[i + k..] == a[i + k..] + c && t[i + k..] == b[i + k..] + d;
      var e := |a| - (i + k);
      if s[i + k..] == t[i + k..] {
        assert a[i + k..] == s[i + k..][..e] && c == s[i + k..][e..];
        assert b[i + k..] == t[i + k..][..e] && d == t[i + k..][e..];
      }
    } else {
      assert s[..i] == a[..i] && t[..i] == b[..i];
      assert s[i + k..] == c[i + k - |a|..] && t[i + k..] == d[i + k - |a|..];
    }
  }

  // ---------------------------------------------------------------- windows across the border: what is safe

  lemma HalfAtMost(w: bv16, top: bv16, next: bv16)
    requires Doubles(top, next) && AtMost(Half(w), top)
    ensures AtMost(w, next)
  {
  }

  lemma {:induction false} FitsBelow(n: nat, w: bv16)
    requires n <= 16 && Fits(n, w)
    ensures Below(n, w)
    decreases n
  {
    if n > 0 {
      hide Half, AtMost, Doubles, Largest;
      FitsBelow(n - 1, Half(w));
      LargestDoubles(n - 1);
      HalfAtMost(w, Largest(n - 1), Largest(n));
    }
  }

  function Raised(h: bv16): bv16 {
    h << 8
  }

  function Feed5(r: bv16): bv16 {
    CrcTables.Feed(CrcTables.Feed(CrcTables.Feed(CrcTables.Feed(CrcTables.Feed(r)))))
  }

  /** Error patterns of 1, 2, 3, 4, 5, 14 and 15 payload bits never yield a difference in the
      first 8, 6, 5, 4, 3, 2 and 1 check bits alone. */
  lemma NoPattern1(e: bv16, h: bv16)
    requires AtMost(e, 0x1) && e != 0 && AtMost(h, 0xFF)
    ensures CrcTables.Feed(e) != Raised(h)
  {
  }

  lemma NoPattern2(e: bv16, h: bv16)
    requires AtMost(e, 0x3) && e != 0 && AtMost(h, 0x3F)
    ensures CrcTables.Feed(CrcTables.Feed(e)) != Raised(h)
  {
  }

  lemma NoPattern3(e: bv16, h: bv16)
    requires AtMost(e, 0x7) && e != 0 && AtMost(h, 0x1F)
    ensures CrcTables.Feed(CrcTables.Feed(CrcTables.Feed(e))) != Raised(h)
  {
  }

  lemma NoPattern4(e: bv16, h: bv16)
    requires AtMost(e, 0xF) && e != 0 && AtMost(h, 0xF)
    ensures CrcTables.Feed(CrcTables.Feed(CrcTables.Feed(CrcTables.Feed(e)))) != Raised(h)
  {
  }

  lemma NoPattern5(e: bv16, h: bv16)
    requires AtMost(e, 0x1F) && e != 0 && AtMost(h, 0x7)
    ensures Feed5(e) != Raised(h)
  {
  }

  lemma NoPattern14(e: bv16, h: bv16)
    requires AtMost(e, 0x3FFF) && e != 0 && AtMost(h, 0x3)
    ensures CrcTables.Feed8(CrcTables.Feed(Feed5(e))) != Raised(h)
  {
  }

  lemma NoPattern15(e: bv16, h: bv16)
    requires AtMost(e, 0x7FFF) && e != 0 && AtMost(h, 0x1)
    ensures CrcTables.Feed8(CrcTables.Feed(CrcTables.Feed(Feed5(e)))) != Raised(h)
  {
  }

  lemma ShiftsFeed(n: nat, r: bv16)
    ensures Shifts(n + 1, r) == Shifts(n, CrcTables.Feed(r))
  {
    hide CrcTables.Feed;
    CrcTables.FeedIsShift(r);
  }

  lemma ShiftsFeed5(n: nat, r: bv16)
    ensures Shifts(n + 5, r) == Shifts(n, Feed5(r))
  {
    hide CrcTables.Feed, Shifts;
    var r2 := CrcTables.Feed(CrcTables.Feed(r));
    ShiftsFeed(n + 4, r);
    ShiftsFeed(n + 3, CrcTables.Feed(r));
    ShiftsFeed(n + 2, r2);
    ShiftsFeed(n + 1, CrcTables.Feed(r2));
    ShiftsFeed(n, CrcTables.Feed(CrcTables.Feed(r2)));
  }

  lemma ShiftsNone(r: bv16)
    ensures Shifts(0, r) == r
  {
  }

  /** Most check bits a window with `a` payload bits may hold and still let nothing through. */
  function Safe(a: nat): nat {
    match a
    case 0 => 16
    case 1 => 8
    case 2 => 6
    case 3 => 5
    case 4 => 4
    case 5 => 3
    case _ => 2
  }

  lemma ShortPattern(a: nat, e: bv16, h: bv16)
    requires 1 <= a <= 5 && Below(a, e) && e != 0 && Below(Safe(a), h)
    ensures Shifts(a, e) != Raised(h)
  {
    hide CrcTables.Feed, Shifts, AtMost, Raised;
    var f := CrcTables.Feed(e);
    var ff := CrcTables.Feed(f);
    if a == 1 {
      NoPattern1(e, h);
      ShiftsFeed(0, e);
      ShiftsNone(f);
    } else if a == 2 {
      NoPattern2(e, h);
      ShiftsFeed(1, e);
      ShiftsFeed(0, f);
      ShiftsNone(ff);
    } else if a == 3 {
      NoPattern3(e, h);
      ShiftsFeed(2, e);
      ShiftsFeed(1, f);
      ShiftsFeed(0, ff);
      ShiftsNone(CrcTables.Feed(ff));
    } else if a == 4 {
      NoPattern4(e, h);
      ShiftsFeed(3, e);
      ShiftsFeed(2, f);
      ShiftsFeed(1, ff);
      ShiftsFeed(0, CrcTables.Feed(ff));
      ShiftsNone(CrcTables.Feed(CrcTables.Feed(ff)));
    } else {
      NoPattern5(e, h);
      ShiftsFeed5(0, e);
      ShiftsNone(Feed5(e));
    }
  }

  lemma LongPattern(e: bv16, h: bv16)
    requires e != 0
    ensures Below(14, e) && Below(2, h) ==> Shifts(14, e) != Raised(h)
    ensures Below(15, e) && Below(1, h) ==> Shifts(15, e) != Raised(h)
  {
    hide CrcTables.Feed, CrcTables.Feed8, Shifts, AtMost, Raised, Feed5;
    var g := Feed5(e);
    ShiftsFeed5(9, e);
    ShiftsFeed5(10, e);
    ShiftsFeed(8, g);
    ShiftsFeed(9, g);
    ShiftsFeed(8, CrcTables.Feed(g));
    CrcTables.Feed8IsShifts(CrcTables.Feed(g));
    CrcTables.Feed8IsShifts(CrcTables.Feed(CrcTables.Feed(g)));
    if Below(14, e) && Below(2, h) {
      NoPattern14(e, h);
    }
    if Below(15, e) && Below(1, h) {
      NoPattern15(e, h);
    }
  }

  lemma DoubledWord(e: bv16)
    requires AtMost(e, 0x7FFF)
    ensures Half(Double(e)) == e && CrcTables.Feed(Double(e)) == e && (e != 0 ==> Double(e) != 0)
  {
  }

  /** A pattern of `a` payload bits is also one of `b` of them. */
  lemma {:induction false} Stretched(a: nat, b: nat, e: bv16) returns (w: bv16)
    requires a <= b <= 15 && Fits(a, e) && e != 0
    ensures Fits(b, w) && w != 0 && Shifts(b, w) == Shifts(a, e)
    decreases b - a
  {
    hide Half, Double, CrcTables.Feed, AtMost, Shifts;
    if a == b {
      w := e;
    } else {
      FitsMore(a, 15, e);
      FitsBelow(15, e);
      DoubledWord(e);
      ShiftsFeed(a, Double(e));
      w := Stretched(a + 1, b, Double(e));
    }
  }

  /** So no window that is not weak turns a payload error into one of its check bits alone. */
  lemma NoPattern(a: nat, t: nat, e: bv16, h: bv16)
    requires 1 <= a && 1 <= t && a + t <= 16 && !Weak(a, t)
    requires Fits(a, e) && e != 0 && Fits(t, h)
    ensures Shifts(a, e) != Raised(h)
  {
    hide Fits, Shifts, Raised, Below;
    FitsMore(t, Safe(a), h);
    FitsBelow(Safe(a), h);
    if a <= 5 {
      FitsBelow(a, e);
      ShortPattern(a, e, h);
    } else {
      var b := 16 - t;
      var w := Stretched(a, b, e);
      FitsBelow(t, h);
      FitsBelow(b, w);
      LongPattern(w, h);
    }
  }

  /** The registers of two payloads that differ in their last `a` bits only. */
  lemma LastBitsDiffer(r: bv16, x: seq<bool>, y: seq<bool>) returns (e: bv16)
    requires |x| == |y| <= 16
    ensures Fits(|x|, e) && Xor(CrcBits(r, x), CrcBits(r, y)) == Shifts(|x|, e) && (x != y ==> e != 0)
  {
    hide CrcBits, Shifts, Xor, Fits, WordBits;
    var v := SomeWord(x);
    var w := SomeWord(y);
    WordFirst(|x|, r, v);
    WordFirst(|x|, r, w);
    ShiftsLinear(|x|, Xor(r, v), Xor(r, w));
    XorSwap(r, v, r, w);
    XorZero(r, r);
    XorWithZero(Xor(v, w));
    e := Xor(v, w);
    FitsXor(|x|, v, w);
    XorZero(v, w);
  }

  lemma XorWithZero(w: bv16)
    ensures Xor(0, w) == w
  {
  }

  /** Check fields that agree from bit `t` on, in the first check byte. */
  lemma HighFieldDiffers(c: bv16, d: bv16, t: nat) returns (h: bv16)
    requires t <= 8 && FieldBits(c)[t..] == FieldBits(d)[t..]
    ensures Fits(t, h) && Xor(c, d) == Raised(h)
  {
    hide ByteBits, HighByte, LowByte, Widen, Xor, Fits, FieldBits, Raised;
    var p, q, u, v := HighByte(c), HighByte(d), LowByte(c), LowByte(d);
    FieldFrom(c, t, t);
    FieldFrom(d, t, t);
    var k := 8 - t;
    assert FieldBits(c)[t..][k..] == ByteBits(u) && FieldBits(d)[t..][k..] == ByteBits(v);
    assert FieldBits(c)[t..][..k] == ByteBits(p)[t..] && FieldBits(d)[t..][..k] == ByteBits(q)[t..];
    SameByteBits(u, v);
    SameByteFrom(p, q, t);
    h := Xor(Widen(p), Widen(q));
    HighApart(c, d, h);
  }

  lemma HighApart(c: bv16, d: bv16, h: bv16)
    requires LowByte(c) == LowByte(d) && Xor(Widen(HighByte(c)), Widen(HighByte(d))) == h
    ensures Xor(c, d) == Raised(h)
  {
    XorOfHighApart(c, d, h);
  }

  /** The check field from bit `k` on, and from a later bit `t` on. */
  lemma FieldFrom(c: bv16, k: nat, t: nat)
    requires k <= t <= 16
    ensures FieldBits(c)[k..] ==
            if k <= 8 then ByteBits(HighByte(c))[k..] + ByteBits(LowByte(c)) else ByteBits(LowByte(c))[k - 8..]
    ensures FieldBits(c)[t..] == FieldBits(c)[k..][t - k..]
  {
    hide ByteBits, HighByte, LowByte;
  }

  lemma SameByteFrom(p: byte, q: byte, t: nat)
    requires t <= 8
    ensures ByteBits(p)[t..] == ByteBits(q)[t..] <==> Fits(t, Xor(Widen(p), Widen(q)))
  {
    hide Widen, Xor, WordBits, Fits;
    ByteFits(p);
    ByteFits(q);
    SameFrom(8, Widen(p), Widen(q), t);
  }

  lemma AcrossIsWeak(m: seq<byte>, n: seq<byte>, a: nat, t: nat)
    requires |m| == |n| && m != n && 1 <= a <= 8 * |m| && 1 <= t && a + t <= 16
    requires MessageBits(m)[..8 * |m| - a] == MessageBits(n)[..8 * |m| - a]
    requires FieldBits(FrameCrc(m))[t..] == FieldBits(FrameCrc(n))[t..]
    ensures Weak(a, t)
  {
    hide MessageBits, FrameCrc, Shifts, Xor, FieldBits, Raised, Fits;
    if !Weak(a, t) {
      var e := PayloadDrift(m, n, a);
      var h := HighFieldDiffers(FrameCrc(m), FrameCrc(n), t);
      NoPattern(a, t, e, h);
    }
  }

  lemma PayloadDrift(m: seq<byte>, n: seq<byte>, a: nat) returns (e: bv16)
    requires |m| == |n| && m != n && a <= 16 && a <= 8 * |m|
    requires MessageBits(m)[..8 * |m| - a] == MessageBits(n)[..8 * |m| - a]
    ensures Fits(a, e) && e != 0 && Xor(FrameCrc(m), FrameCrc(n)) == Shifts(a, e)
  {
    hide MessageBits, CrcBits, Shifts, Xor, Fits;
    var x, y, i := MessageBits(m), MessageBits(n), 8 * |m| - a;
    SplitAt(x, i);
    SplitAt(y, i);
    e := LastBitsDiffer(CrcBits(0xFFFF, x[..i]), x[i..], y[i..]);
    if x[i..] == y[i..] {
      MessageBitsInjective(m, n);
    }
  }

  lemma SplitAt(x: seq<bool>, i: nat)
    requires i <= |x|
    ensures x == x[..i] + x[i..] && CrcBits(0xFFFF, x) == CrcBits(CrcBits(0xFFFF, x[..i]), x[i..])
  {
    hide CrcBits;
    assert x == x[..i] + x[i..];
    CrcBitsConcat(0xFFFF, x[..i], x[i..]);
  }

  lemma GoodFrameOf(f: seq<byte>)
    requires |f| >= 2 && CheckBytesMatch(f)
    ensures f == Closed(f[..|f| - 2])
  {
    hide CrcBytes;
  }

  lemma SlipIsWeak(f: seq<byte>, g: seq<byte>, i: nat, k: nat)
    requires |f| >= 2 && CheckBytesMatch(f) && SlipsThrough(f, g, i, k)
    ensures Weak(PayloadPart(f, i, k), k - PayloadPart(f, i, k))
  {
    hide MessageBits, FrameCrc, FieldBits, CheckBytesMatch, DifferOnlyIn, Closed;
    var m, n := f[..|f| - 2], g[..|g| - 2];
    var c, d := FrameCrc(m), FrameCrc(n);
    FrameBits(f);
    FrameBits(g);
    GoodFrameOf(f);
    GoodFrameOf(g);
    WindowInside(f, g, i, k);
    WindowOfBoth(MessageBits(m), MessageBits(n), FieldBits(c), FieldBits(d), i, k);
    if i >= 8 * |m| {
      MessageBitsInjective(m, n);
    } else if k > 16 {
      return;
    } else if i + k <= 8 * |m| {
      SameField(c, d);
      PayloadBurst(m, n, i, k);
    } else {
      var a := 8 * |m| - i;
      AcrossIsWeak(m, n, a, k - a);
    }
  }

  lemma WindowInside(f: seq<byte>, g: seq<byte>, i: nat, k: nat)
    requires SlipsThrough(f, g, i, k)
    ensures i + k <= 8 * |f|
  {
  }

  lemma PayloadBurst(m: seq<byte>, n: seq<byte>, i: nat, k: nat)
    requires |m| == |n| && m != n && k <= 16 && DifferOnlyIn(MessageBits(m), MessageBits(n), i, k)
    ensures FrameCrc(m) != FrameCrc(n)
  {
    hide MessageBits, FrameCrc;
    BurstChangesCrc(m, n, i, k);
  }

  // ---------------------------------------------------------------- windows across the border: what slips through

  /** An error in the last `b` bits of the last byte, and what one of `b` bits does to the register. */
  function Pattern(b: nat): byte {
    match b
    case 1 => 0x80
    case 2 => 0xC0
    case 3 => 0x60
    case 4 => 0x30
    case 5 => 0x18
    case _ => 0x0C
  }

  function Effect(b: nat): bv16 {
    match b
    case 1 => 0xA001
    case 2 => 0x5000
    case 3 => 0x2800
    case 4 => 0x1400
    case 5 => 0x0A00
    case 6 => 0x0500
    case 15 => 0x0200
    case _ => 0x0100
  }

  /** The sizes of the error patterns used below: one to six bits of the last byte, or fifteen or
      sixteen bits of the last two. */
  predicate Size(b: nat) {
    1 <= b <= 6 || b == 15 || b == 16
  }

  /** The check bits such a pattern needs. */
  function Reach(b: nat): nat
    requires Size(b)
  {
    if b == 1 then 9 else if b <= 6 then 9 - b else 17 - b
  }

  lemma PatternEffect(b: nat)
    requires 1 <= b <= 6
    ensures Shifts(8, Widen(Pattern(b))) == Effect(b)
  {
    hide Shifts;
    CrcTables.Feed8IsShifts(Widen(Pattern(b)));
  }

  lemma PatternClear(b: nat)
    requires 1 <= b <= 6
    ensures Pattern(b) != 0 && Clear(8 - b, Widen(Pattern(b)))
  {
  }

  lemma ByteDifference(y: byte, p: byte)
    ensures Xor(Widen(y), Widen(Xor8(y, p))) == Widen(p) && (p != 0 ==> Xor8(y, p) != y)
  {
  }

  lemma FlippedByteBits(y: byte, b: nat)
    requires 1 <= b <= 6
    ensures Xor8(y, Pattern(b)) != y
    ensures ByteBits(y)[..8 - b] == ByteBits(Xor8(y, Pattern(b)))[..8 - b]
  {
    hide Widen, Xor, Xor8, WordBits, Clear, Pattern;
    PatternClear(b);
    ByteDifference(y, Pattern(b));
    SameUpTo(8, Widen(y), Widen(Xor8(y, Pattern(b))), 8 - b);
  }

  lemma EffectInHigh(b: nat, c: bv16, d: bv16)
    requires Size(b) && b > 1 && Xor(c, d) == Effect(b)
    ensures LowByte(c) == LowByte(d) && Fits(Reach(b), Xor(Widen(HighByte(c)), Widen(HighByte(d))))
  {
    HalvesOfDifference(c, d);
    assert Fits(Reach(b), Effect(b) >> 8);
  }

  lemma EffectOfLast(c: bv16, d: bv16)
    requires Xor(c, d) == 0xA001
    ensures Fits(1, Xor(Widen(LowByte(c)), Widen(LowByte(d))))
  {
    HalvesOfDifference(c, d);
    assert Fits(1, 1);
  }

  /** The check bits that the pattern leaves alone. */
  lemma EffectBits(b: nat, c: bv16, d: bv16, t: nat)
    requires Size(b) && Xor(c, d) == Effect(b) && Reach(b) <= t <= 16
    ensures FieldBits(c)[t..] == FieldBits(d)[t..]
  {
    hide Xor, Widen, ByteBits, HighByte, LowByte, Fits, Effect, FieldBits;
    var p, q, u, v := HighByte(c), HighByte(d), LowByte(c), LowByte(d);
    if b == 1 {
      assert Effect(1) == 0xA001 by { EffectOfOne(); }
      EffectOfLast(c, d);
      SameByteFrom(u, v, 1);
      FieldFrom(c, 9, t);
      FieldFrom(d, 9, t);
    } else {
      var k := Reach(b);
      EffectInHigh(b, c, d);
      SameByteFrom(p, q, k);
      FieldFrom(c, k, t);
      FieldFrom(d, k, t);
    }
  }

  lemma EffectOfOne()
    ensures Effect(1) == 0xA001
  {
  }

  lemma LastByteAltered(q: seq<byte>, y: byte, z: byte, j: nat, i: nat)
    requires j <= 8 && ByteBits(y)[..j] == ByteBits(z)[..j] && i <= 8 * |q| + j
    ensures MessageBits(q + [y])[..i] == MessageBits(q + [z])[..i]
  {
    hide ByteBits, MessageBits;
    LastByteBits(q, y);
    LastByteBits(q, z);
    JoinedPrefix(MessageBits(q), ByteBits(y), ByteBits(z), j, i);
  }

  lemma DifferentLast(q: seq<byte>, y: byte, z: byte)
    requires y != z
    ensures q + [y] != q + [z]
  {
    assert (q + [y])[|q|] != (q + [z])[|q|];
  }

  lemma JoinedPrefix(q: seq<bool>, x: seq<bool>, y: seq<bool>, j: nat, i: nat)
    requires |x| == |y| && j <= |x| && x[..j] == y[..j] && i <= |q| + j
    ensures (q + x)[..i] == (q + y)[..i]
  {
    assert (q + x)[..|q| + j] == q + x[..j] && (q + y)[..|q| + j] == q + y[..j];
    assert (q + x)[..i] == (q + x)[..|q| + j][..i] && (q + y)[..i] == (q + y)[..|q| + j][..i];
  }

  lemma LastByteBits(q: seq<byte>, y: byte)
    ensures MessageBits(q + [y]) == MessageBits(q) + ByteBits(y)
  {
    hide ByteBits;
    MessageBitsConcat(q, [y]);
    assert MessageBits([y]) == ByteBits(y) + [];
  }

  /** XORing the pattern into the last byte of a payload. */
  lemma Altered(m: seq<byte>, q: seq<byte>, y: byte, b: nat, i: nat) returns (n: seq<byte>)
    requires m == q + [y] && 1 <= b <= 6 && i <= 8 * |m| - b
    ensures |n| == |m| && n != m && MessageBits(m)[..i] == MessageBits(n)[..i]
    ensures Xor(FrameCrc(m), FrameCrc(n)) == Effect(b)
  {
    hide *;
    var z := Xor8(y, Pattern(b));
    n := q + [z];
    FlippedByteBits(y, b);
    DifferentLast(q, y, z);
    LastByteAltered(q, y, z, 8 - b, i);
    assert m == q + [y] + [] && n == n + [];
    ByteChanges(q, y, Pattern(b), []);
    PatternEffect(b);
  }

  // ---------------------------------------------------------------- patterns of several bytes

  function XorBytes(ys: seq<byte>, ps: seq<byte>): (zs: seq<byte>)
    requires |ys| == |ps|
    ensures |zs| == |ys|
  {
    if ys == [] then [] else [Xor8(ys[0], ps[0])] + XorBytes(ys[1..], ps[1..])
  }

  lemma XorThrough(c: bv16, d: bv16, e: bv16)
    ensures Xor(Xor(c, d), Xor(d, e)) == Xor(c, e)
  {
  }

  /** The register that an error pattern alone would leave. */
  lemma PatternCrc(p: byte, ps: seq<byte>)
    ensures Crc(0, [p] + ps) == Xor(Shifts(8 + 8 * |ps|, Widen(p)), Crc(0, ps))
  {
    hide Crc, Shifts, Xor, Widen;
    var r := Crc(0, [p]);
    CrcConcat(0, [p], ps);
    CrcOfByte(0, p);
    XorWithZero(Widen(p));
    TailDrift(r, 0, ps);
    XorCommutative(r, 0);
    XorWithZero(r);
    ShiftsJoin(8, 8 * |ps|, Widen(p));
    XorBack(Crc(r, ps), Crc(0, ps));
  }

  lemma ShiftsJoin(m: nat, n: nat, w: bv16)
    ensures Shifts(m + n, w) == Shifts(n, Shifts(m, w))
  {
    hide Shifts;
    CrcOrder.ShiftsAdd(m, n, w);
  }

  lemma XorBack(v: bv16, w: bv16)
    ensures Xor(Xor(v, w), w) == v
  {
  }

  /** What an error pattern, `tail` behind it, does to the check value of any message. */
  lemma {:induction false} BytesChange(q: seq<byte>, ys: seq<byte>, ps: seq<byte>, tail: seq<byte>)
    requires |ys| == |ps|
    ensures Xor(FrameCrc(q + ys + tail), FrameCrc(q + XorBytes(ys, ps) + tail)) == Shifts(8 * |tail|, Crc(0, ps))
    decreases |ys|
  {
    hide FrameCrc, Crc, Shifts, Xor, Xor8, Widen;
    if ys == [] {
      NoPatternCrc();
      ShiftsOfZero(8 * |tail|);
      XorZero(FrameCrc(q + ys + tail), FrameCrc(q + ys + tail));
    } else {
      var y, p, rest, ps' := ys[0], ps[0], ys[1..], ps[1..];
      var z := Xor8(y, p);
      var zs := XorBytes(rest, ps');
      ByteChanges(q, y, p, rest + tail);
      BytesChange(q + [z], rest, ps', tail);
      assert ps == [p] + ps' && ys == [y] + rest;
      assert q + ys + tail == q + [y] + (rest + tail);
      assert q + [z] + (rest + tail) == q + [z] + rest + tail;
      assert q + XorBytes(ys, ps) + tail == q + [z] + zs + tail;
      XorThrough(FrameCrc(q + ys + tail), FrameCrc(q + [z] + rest + tail), FrameCrc(q + [z] + zs + tail));
      PatternCrc(p, ps');
      ShiftsJoin(8 + 8 * |rest|, 8 * |tail|, Widen(p));
      ShiftsLinear(8 * |tail|, Shifts(8 + 8 * |rest|, Widen(p)), Crc(0, ps'));
    }
  }

  lemma NoPatternCrc()
    ensures Crc(0, []) == 0
  {
  }

  /** The bits of a byte before and behind those its pattern flips. */
  lemma PatternBits(y: byte, p: byte, o: nat, u: nat)
    requires o <= 8 && u <= 8
    ensures Clear(o, Widen(p)) ==> ByteBits(y)[..o] == ByteBits(Xor8(y, p))[..o]
    ensures Fits(u, Widen(p)) ==> ByteBits(y)[u..] == ByteBits(Xor8(y, p))[u..]
  {
    hide Widen, Xor, Xor8, WordBits, Clear, Fits;
    ByteDifference(y, p);
    SameByteFrom(y, Xor8(y, p), u);
    if Clear(o, Widen(p)) {
      SameUpTo(8, Widen(y), Widen(Xor8(y, p)), o);
    }
  }

  /** Changed bytes between unchanged ones, seen as bits. */
  lemma BytesBits(q: seq<byte>, ys: seq<byte>, zs: seq<byte>, tail: seq<byte>, o: nat, k: nat)
    requires |ys| == |zs| && DifferOnlyIn(MessageBits(ys), MessageBits(zs), o, k)
    ensures DifferOnlyIn(MessageBits(q + ys + tail), MessageBits(q + zs + tail), 8 * |q| + o, k)
  {
    hide MessageBits, DifferOnlyIn;
    MessageBitsConcat(q + ys, tail);
    MessageBitsConcat(q + zs, tail);
    MessageBitsConcat(q, ys);
    MessageBitsConcat(q, zs);
    InnerWindow(MessageBits(q), MessageBits(ys), MessageBits(zs), MessageBits(tail), o, k);
  }

  lemma InnerWindow(q: seq<bool>, x: seq<bool>, y: seq<bool>, t: seq<bool>, o: nat, k: nat)
    requires DifferOnlyIn(x, y, o, k)
    ensures DifferOnlyIn(q + x + t, q + y + t, |q| + o, k)
  {
    assert (q + x + t)[..|q| + o] == q + x[..o] && (q + y + t)[..|q| + o] == q + y[..o];
    assert (q + x + t)[|q| + o + k..] == x[o + k..] + t && (q + y + t)[|q| + o + k..] == y[o + k..] + t;
  }

  lemma WiderWindow(x: seq<bool>, y: seq<bool>, i: nat, k: nat, j: nat, l: nat)
    requires DifferOnlyIn(x, y, i, k) && j <= i && i + k <= j + l <= |x|
    ensures DifferOnlyIn(x, y, j, l)
  {
    assert x[..j] == x[..i][..j] && y[..j] == y[..i][..j];
    var e := j + l - (i + k);
    assert x[j + l..] == x[i + k..][e..] && y[j + l..] == y[i + k..][e..];
  }

  lemma DifferentBytes(q: seq<byte>, y: byte, p: byte, ys: seq<byte>, zs: seq<byte>)
    requires p != 0
    ensures q + ([y] + ys) != q + ([Xor8(y, p)] + zs)
  {
    ByteDifference(y, p);
    assert (q + ([y] + ys))[|q|] == y && (q + ([Xor8(y, p)] + zs))[|q|] == Xor8(y, p);
  }

  // ---------------------------------------------------------------- fifteen or sixteen payload bits

  function LongPatternBytes(b: nat): (ps: seq<byte>)
    ensures |ps| == 2
  {
    if b == 15 then [0xFE, 0x87] else [0xFF, 0x43]
  }

  lemma CrcOfTwo(x: byte, y: byte)
    ensures Crc(0, [x, y]) == CrcTables.Feed8(Xor(CrcTables.Feed8(Widen(x)), Widen(y)))
  {
    hide Crc, Shifts, Xor, Widen, CrcTables.Feed8;
    assert [x, y] == [x] + [y];
    CrcConcat(0, [x], [y]);
    CrcOfByte(0, x);
    XorWithZero(Widen(x));
    CrcOfByte(Crc(0, [x]), y);
    CrcTables.Feed8IsShifts(Widen(x));
    CrcTables.Feed8IsShifts(Xor(Crc(0, [x]), Widen(y)));
  }

  lemma LongEffect(b: nat)
    requires b == 15 || b == 16
    ensures Crc(0, LongPatternBytes(b)) == Effect(b)
  {
    hide Crc;
    CrcOfTwo(0xFE, 0x87);
    CrcOfTwo(0xFF, 0x43);
  }

  lemma LongClear(b: nat)
    requires b == 15 || b == 16
    ensures LongPatternBytes(b)[0] != 0 && Clear(16 - b, Widen(LongPatternBytes(b)[0]))
  {
  }

  lemma TwoXored(x: byte, y: byte, p: byte, r: byte)
    ensures XorBytes([x, y], [p, r]) == [Xor8(x, p), Xor8(y, r)]
  {
    hide Xor8;
    assert [x, y][1..] == [y] && [p, r][1..] == [r] && [y][1..] == [] && [r][1..] == [];
    assert XorBytes([y], [r]) == [Xor8(y, r)];
  }

  lemma LongAltered(m: seq<byte>, q: seq<byte>, x: byte, y: byte, b: nat, i: nat) returns (n: seq<byte>)
    requires m == q + [x, y] && (b == 15 || b == 16) && i <= 8 * |m| - b
    ensures |n| == |m| && n != m && MessageBits(m)[..i] == MessageBits(n)[..i]
    ensures Xor(FrameCrc(m), FrameCrc(n)) == Effect(b)
  {
    hide *;
    var ps := LongPatternBytes(b);
    var p, r := ps[0], ps[1];
    assert ps == [p, r];
    var z, w := Xor8(x, p), Xor8(y, r);
    TwoXored(x, y, p, r);
    n := q + [z, w];
    LongClear(b);
    assert [x, y] == [x] + [y] && [z, w] == [z] + [w];
    DifferentBytes(q, x, p, [y], [w]);
    BytesChange(q, [x, y], ps, []);
    assert m == m + [] && n == n + [];
    LongEffect(b);
    ShiftsNone(Effect(b));
    PatternBits(x, p, 16 - b, 8);
    MessageBitsConcat(q, [x, y]);
    MessageBitsConcat(q, [z, w]);
    BitsOfTwo(x, y);
    BitsOfTwo(z, w);
    TwoBytePrefix(ByteBits(x), ByteBits(z), ByteBits(y), ByteBits(w), 16 - b);
    JoinedPrefix(MessageBits(q), ByteBits(x) + ByteBits(y), ByteBits(z) + ByteBits(w), 16 - b, i);
  }

  lemma TwoBytePrefix(x: seq<bool>, z: seq<bool>, y: seq<bool>, w: seq<bool>, o: nat)
    requires o <= |x| == |z| && x[..o] == z[..o]
    ensures (x + y)[..o] == (z + w)[..o]
  {
    assert (x + y)[..o] == x[..o] && (z + w)[..o] == z[..o];
  }

  // ---------------------------------------------------------------- seventeen payload bits

  /** The polynomial itself, `o` bits into the first of three bytes. */
  function PolynomialBytes(o: nat): (ps: seq<byte>)
    ensures |ps| == 3
  {
    match o
    case 0 => [0x03, 0x40, 0x01]
    case 1 => [0x06, 0x80, 0x02]
    case 2 => [0x0C, 0x00, 0x05]
    case 3 => [0x18, 0x00, 0x0A]
    case 4 => [0x30, 0x00, 0x14]
    case 5 => [0x60, 0x00, 0x28]
    case 6 => [0xC0, 0x00, 0x50]
    case _ => [0x80, 0x01, 0xA0]
  }

  lemma CrcOfThree(x: byte, y: byte, z: byte)
    ensures Crc(0, [x, y, z]) ==
            CrcTables.Feed8(Xor(CrcTables.Feed8(Xor(CrcTables.Feed8(Widen(x)), Widen(y))), Widen(z)))
  {
    hide Crc, Shifts, Xor, Widen, CrcTables.Feed8;
    assert [x, y, z] == [x, y] + [z];
    CrcConcat(0, [x, y], [z]);
    CrcOfTwo(x, y);
    CrcOfByte(Crc(0, [x, y]), z);
    CrcTables.Feed8IsShifts(Xor(Crc(0, [x, y]), Widen(z)));
  }

  lemma PolynomialVanishes(o: nat)
    requires o < 8
    ensures Crc(0, PolynomialBytes(o)) == 0
  {
    hide Crc;
    var ps := PolynomialBytes(o);
    assert ps == [ps[0], ps[1], ps[2]];
    CrcOfThree(ps[0], ps[1], ps[2]);
  }

  lemma PolynomialBits(o: nat)
    requires o < 8
    ensures PolynomialBytes(o)[0] != 0
    ensures Clear(o, Widen(PolynomialBytes(o)[0])) && Fits(o + 1, Widen(PolynomialBytes(o)[2]))
  {
  }

  lemma ThreeXored(x: byte, y: byte, z: byte, p: byte, r: byte, s: byte)
    ensures XorBytes([x, y, z], [p, r, s]) == [Xor8(x, p), Xor8(y, r), Xor8(z, s)]
  {
    hide Xor8;
    assert [x, y, z][1..] == [y, z] && [p, r, s][1..] == [r, s];
    TwoXored(y, z, r, s);
  }

  lemma ThreeByteWindow(x: seq<bool>, y: seq<bool>, z: seq<bool>, x': seq<bool>, y': seq<bool>, z': seq<bool>, o: nat)
    requires |x| == |y| == |z| == |x'| == |y'| == |z'| == 8 && o < 8
    requires x[..o] == x'[..o] && z[o + 1..] == z'[o + 1..]
    ensures DifferOnlyIn(x + y + z, x' + y' + z', o, 17)
  {
    assert (x + y + z)[..o] == x[..o] && (x' + y' + z')[..o] == x'[..o];
    assert (x + y + z)[o + 17..] == z[o + 1..] && (x' + y' + z')[o + 17..] == z'[o + 1..];
  }

  /** Three bytes changed by the polynomial, anywhere in a payload. */
  lemma PolynomialSlips(m: seq<byte>, q: seq<byte>, x: byte, y: byte, z: byte, tail: seq<byte>, o: nat)
    returns (n: seq<byte>)
    requires m == q + [x, y, z] + tail && o < 8
    ensures |n| == |m| && n != m && FrameCrc(n) == FrameCrc(m)
    ensures DifferOnlyIn(MessageBits(m), MessageBits(n), 8 * |q| + o, 17)
  {
    hide *;
    var ps := PolynomialBytes(o);
    var p, r, s := ps[0], ps[1], ps[2];
    assert ps == [p, r, s];
    var x', y', z' := Xor8(x, p), Xor8(y, r), Xor8(z, s);
    ThreeXored(x, y, z, p, r, s);
    n := q + [x', y', z'] + tail;
    PolynomialBits(o);
    PolynomialVanishes(o);
    BytesChange(q, [x, y, z], ps, tail);
    ShiftsOfZero(8 * |tail|);
    XorZero(FrameCrc(m), FrameCrc(n));
    PatternBits(x, p, o, 8);
    PatternBits(z, s, 0, o + 1);
    ThreeBytes(x, y, z);
    ThreeBytes(x', y', z');
    ThreeByteWindow(ByteBits(x), ByteBits(y), ByteBits(z), ByteBits(x'), ByteBits(y'), ByteBits(z'), o);
    BytesBits(q, [x, y, z], [x', y', z'], tail, o, 17);
    DifferentBytes(q, x, p, [y, z] + tail, [y', z'] + tail);
    assert m == q + ([x] + ([y, z] + tail)) && n == q + ([x'] + ([y', z'] + tail));
  }

  lemma InsideSlips(m: seq<byte>, i: nat, k: nat) returns (n: seq<byte>)
    requires k >= 17 && i + k <= 8 * |m|
    ensures |n| == |m| && n != m && FrameCrc(n) == FrameCrc(m) && DifferOnlyIn(MessageBits(m), MessageBits(n), i, k)
  {
    hide MessageBits, FrameCrc, DifferOnlyIn;
    var j, o := i / 8, i % 8;
    assert m == m[..j] + [m[j], m[j + 1], m[j + 2]] + m[j + 3..];
    n := PolynomialSlips(m, m[..j], m[j], m[j + 1], m[j + 2], m[j + 3..], o);
    WiderWindow(MessageBits(m), MessageBits(n), i, 17, i, k);
  }

  // ---------------------------------------------------------------- every weak window

  lemma AcrossSlips(m: seq<byte>, i: nat, k: nat) returns (n: seq<byte>)
    requires i < 8 * |m| < i + k <= 8 * |m| + 16 && Weak(8 * |m| - i, i + k - 8 * |m|)
    ensures |n| == |m| && n != m && MessageBits(m)[..i] == MessageBits(n)[..i]
    ensures FieldBits(FrameCrc(m))[i + k - 8 * |m|..] == FieldBits(FrameCrc(n))[i + k - 8 * |m|..]
  {
    hide MessageBits, FrameCrc, FieldBits, Effect;
    var a, t := 8 * |m| - i, i + k - 8 * |m|;
    var l := |m| - 1;
    var b := if t <= 2 then 17 - t else if a < 6 then a else 6;
    if t <= 2 {
      assert m == m[..l - 1] + [m[l - 1], m[l]];
      n := LongAltered(m, m[..l - 1], m[l - 1], m[l], b, i);
    } else {
      n := Altered(m, m[..l], m[l], b, i);
    }
    EffectBits(b, FrameCrc(m), FrameCrc(n), t);
  }

  /** A weak window lets a change of any frame through. */
  lemma WeakSlips(f: seq<byte>, i: nat, k: nat) returns (g: seq<byte>)
    requires |f| >= 2 && CheckBytesMatch(f) && i + k <= 8 * |f|
    requires Weak(PayloadPart(f, i, k), k - PayloadPart(f, i, k))
    ensures SlipsThrough(f, g, i, k)
  {
    hide MessageBits, FrameCrc, FieldBits, CheckBytesMatch, DifferOnlyIn, Closed;
    var m := f[..|f| - 2];
    var n;
    if i + k <= 8 * |m| {
      n := InsideSlips(m, i, k);
    } else {
      n := AcrossSlips(m, i, k);
    }
    g := Closed(n);
    ClosedFramesMatch(n);
    ClosedPayload(n);
    FrameBits(f);
    FrameBits(g);
    WindowOfBoth(MessageBits(m), MessageBits(n), FieldBits(FrameCrc(m)), FieldBits(FrameCrc(n)), i, k);
  }

  // ---------------------------------------------------------------- the theorems

  /** For every frame that passes the comparison and every window of its bits: some other frame
      that differs only there passes too if and only if the window is weak. */
  lemma WindowSlipsIff(f: seq<byte>, i: nat, k: nat)
    requires |f| >= 2 && CheckBytesMatch(f) && i + k <= 8 * |f|
    ensures (exists g :: SlipsThrough(f, g, i, k)) <==> Weak(PayloadPart(f, i, k), k - PayloadPart(f, i, k))
  {
    hide SlipsThrough, CheckBytesMatch;
    if g :| SlipsThrough(f, g, i, k) {
      SlipIsWeak(f, g, i, k);
    }
    if Weak(PayloadPart(f, i, k), k - PayloadPart(f, i, k)) {
      var g := WeakSlips(f, i, k);
    }
  }

  /** Sixteen bits wholly in the payload, or wholly in the check bytes, let nothing through. */
  lemma OneSidedWindowsDetected(f: seq<byte>, g: seq<byte>, i: nat, k: nat)
    requires 2 <= |f| == |g| && f != g && CheckBytesMatch(f) && k <= 16
    requires DifferOnlyIn(MessageBits(f), MessageBits(g), i, k)
    requires i + k <= 8 * (|f| - 2) || 8 * (|f| - 2) <= i
    ensures !CheckBytesMatch(g)
  {
    hide DifferOnlyIn, CheckBytesMatch;
    if CheckBytesMatch(g) {
      SlipIsWeak(f, g, i, k);
    }
  }

  /** Eight consecutive bits, wherever they lie, let nothing through, at any length ... */
  lemma EightBitsDetected(f: seq<byte>, g: seq<byte>, i: nat, k: nat)
    requires 2 <= |f| == |g| && f != g && CheckBytesMatch(f) && k <= 8
    requires DifferOnlyIn(MessageBits(f), MessageBits(g), i, k)
    ensures !CheckBytesMatch(g)
  {
    hide DifferOnlyIn, CheckBytesMatch;
    if CheckBytesMatch(g) {
      SlipIsWeak(f, g, i, k);
    }
  }

  /** ... and nine do, in every frame that has a payload. */
  lemma NineBitsSlip(f: seq<byte>) returns (g: seq<byte>)
    requires |f| >= 3 && CheckBytesMatch(f)
    ensures SlipsThrough(f, g, 8 * (|f| - 2) - 6, 9)
  {
    g := WeakSlips(f, 8 * (|f| - 2) - 6, 9);
  }

  lemma FrameCrcOfByte(b: byte)
    ensures FrameCrc([b]) == CrcTables.Feed8(Xor(0xFFFF, Widen(b)))
  {
    hide Crc, Shifts, Xor, CrcTables.Feed8;
    CrcOfByte(0xFFFF, b);
    CrcTables.Feed8IsShifts(Xor(0xFFFF, Widen(b)));
  }

  /** Such a pair: bits 2 to 10 of two frames with a one-byte payload. */
  lemma NineBitPair()
    ensures var f: seq<byte>, g: seq<byte> := [0x00, 0x40, 0xBF], [0x0C, 0x45, 0xBF];
            CheckBytesMatch(f) && SlipsThrough(f, g, 2, 9)
  {
    var f: seq<byte>, g: seq<byte> := [0x00, 0x40, 0xBF], [0x0C, 0x45, 0xBF];
    ExampleCrcs();
    hide CrcBytes, MessageBits;
    ExampleBits();
    assert f[..1] == [0x00] && f[1..] == [0x40, 0xBF] && g[..1] == [0x0C] && g[1..] == [0x45, 0xBF];
  }

  lemma ExampleCrcs()
    ensures CrcBytes([0x00]) == [0x40, 0xBF] && CrcBytes([0x0C]) == [0x45, 0xBF]
  {
    hide FrameCrc;
    FrameCrcOfByte(0x00);
    FrameCrcOfByte(0x0C);
  }

  lemma ExampleBits()
    ensures DifferOnlyIn(MessageBits([0x00, 0x40, 0xBF]), MessageBits([0x0C, 0x45, 0xBF]), 2, 9)
  {
    hide WordBits, MessageBits;
    ThreeBytes(0x00, 0x40, 0xBF);
    ThreeBytes(0x0C, 0x45, 0xBF);
    ExampleByteBits();
  }

  lemma ThreeBytes(x: byte, y: byte, z: byte)
    ensures MessageBits([x, y, z]) == ByteBits(x) + ByteBits(y) + ByteBits(z)
  {
    hide ByteBits;
    assert [x, y, z][1..] == [y, z];
    BitsOfTwo(y, z);
  }

  lemma ExampleByteBits()
    ensures ByteBits(0x00)[..2] == ByteBits(0x0C)[..2] && ByteBits(0x40)[3..] == ByteBits(0x45)[3..]
  {
    hide WordBits;
    SameByteFrom(0x40, 0x45, 3);
    assert Fits(3, 0x5);
    assert Clear(2, 0x0C);
    SameUpTo(8, Widen(0x00), Widen(0x0C), 2);
  }

  // ---------------------------------------------------------------- how near two passing frames can be

  lemma FourOnes()
    ensures Ones(8, Widen(Pattern(6))) == 2 && Ones(8, Effect(6) >> 8) == 2 && Ones(8, Effect(6) & 0xFF) == 0
  {
    hide Ones;
    assert Widen(Pattern(6)) == 0x0C && Effect(6) >> 8 == 0x05 && Effect(6) & 0xFF == 0;
    SmallOnes();
  }

  lemma SmallOnes()
    ensures Ones(8, 0x0C) == 2 && Ones(8, 0x05) == 2 && Ones(8, 0) == 0
  {
  }

  /** Two flipped bits of the last byte of a payload flip two check bits. */
  lemma NearFlips(q: seq<byte>, y: byte)
    ensures var m, n := q + [y], q + [Xor8(y, Pattern(6))];
            && Distance(MessageBits(m), MessageBits(n)) == 2
            && Distance(FieldBits(FrameCrc(m)), FieldBits(FrameCrc(n))) == 2
  {
    hide *;
    var z := Xor8(y, Pattern(6));
    var m, n := q + [y], q + [z];
    FourOnes();
    LastByteBits(q, y);
    LastByteBits(q, z);
    DistanceConcat(MessageBits(q), MessageBits(q), ByteBits(y), ByteBits(z));
    NoDistance(MessageBits(q));
    ByteDistance(y, Pattern(6));
    assert m == m + [] && n == n + [];
    ByteChanges(q, y, Pattern(6), []);
    PatternEffect(6);
    FieldDistance(FrameCrc(m), FrameCrc(n));
  }

  /** Every passing frame with a payload has another exactly four flipped bits away. */
  lemma FourBitsSlip(f: seq<byte>) returns (g: seq<byte>)
    requires |f| >= 3 && CheckBytesMatch(f)
    ensures |g| == |f| && CheckBytesMatch(g) && Distance(MessageBits(f), MessageBits(g)) == 4
  {
    hide MessageBits, FieldBits, FrameCrc, Xor8, Distance, CheckBytesMatch, Closed, Pattern;
    var m := f[..|f| - 2];
    var q, y := m[..|m| - 1], m[|m| - 1];
    assert m == q + [y];
    var n := q + [Xor8(y, Pattern(6))];
    g := Closed(n);
    ClosedFramesMatch(n);
    ClosedPayload(n);
    NearFlips(q, y);
    FrameBits(f);
    FrameBits(g);
    DistanceConcat(MessageBits(m), MessageBits(n), FieldBits(FrameCrc(m)), FieldBits(FrameCrc(n)));
  }

  /** The least distance of two passing frames of `n` bytes: 4 up to 4095 bytes, 2 from there on. */
  lemma MinimumDistance(n: nat) returns (f: seq<byte>, g: seq<byte>)
    requires n >= 3
    ensures var least := if n <= 4095 then 4 else 2;
            && BothPass(n, f, g) && Distance(MessageBits(f), MessageBits(g)) == least
            && forall a, b :: BothPass(n, a, b) ==> Distance(MessageBits(a), MessageBits(b)) >= least
  {
    hide CheckBytesMatch, MessageBits, Distance, Closed;
    var m: seq<byte> := seq(n - 2, _ => 0);
    ClosedFramesMatch(m);
    f := Closed(m);
    NoDistance(MessageBits(f));
    if n <= 4095 {
      g := FourBitsSlip(f);
      FarApartIff(n);
    } else {
      g := TwoBitsSlip(f);
      forall a, b | BothPass(n, a, b)
        ensures Distance(MessageBits(a), MessageBits(b)) >= 2
      {
        PassingPairIsEven(a, b);
      }
    }
  }

  /** Passing frames are never just one bit apart. */
  lemma PassingPairIsEven(a: seq<byte>, b: seq<byte>)
    requires 2 <= |a| == |b| && a != b && CheckBytesMatch(a) && CheckBytesMatch(b)
    ensures Distance(MessageBits(a), MessageBits(b)) >= 2
  {
    hide CheckBytesMatch, MessageBits;
    if MessageBits(a) == MessageBits(b) {
      MessageBitsInjective(a, b);
    } else if Distance(MessageBits(a), MessageBits(b)) == 1 {
      OddFlipsDetected(a, b);
    }
  }

  /** Two flipped payload bits 32767 apart that cancel: the first of one byte and the last of the
      4095th behind it. */
  lemma TwoFlipsCancel(y: byte, mid: seq<byte>, z: byte)
    requires |mid| == 4094
    ensures FrameCrc([y] + mid + [z]) == FrameCrc([Xor8(y, 1)] + mid + [Xor8(z, 0x80)])
  {
    hide FrameCrc, Shifts, Xor, Xor8;
    var y', z' := Xor8(y, 1), Xor8(z, 0x80);
    var m, l, n := [y] + mid + [z], [y'] + mid + [z], [y'] + mid + [z'];
    ByteChanges([], y, 1, mid + [z]);
    assert m == [] + [y] + (mid + [z]) && l == [] + [y'] + (mid + [z]);
    ByteChanges([y'] + mid, z, 0x80, []);
    assert l == [y'] + mid + [z] + [] && n == [y'] + mid + [z'] + [];
    LastBitEffect();
    LoneBitReturns(32767);
    ShiftsJoin(32767, 1, 1);
    XorThrough(FrameCrc(m), FrameCrc(l), FrameCrc(n));
    XorZero(Shifts(1, 1), Shifts(1, 1));
    XorZero(FrameCrc(m), FrameCrc(n));
  }

  lemma LastBitEffect()
    ensures Shifts(8, Widen(0x80)) == Shifts(1, 1) && Widen(1) == 1
  {
    PatternEffect(1);
    assert Pattern(1) == 0x80 && Effect(1) == 0xA001;
    hide Shifts;
    ShiftsFeed(0, 1);
    ShiftsNone(CrcTables.Feed(1));
  }
}
