/** The two views of the miss counters: the 4-byte bitmap of parse.c and the text of
    main_xb.c. */
module Reports {
  import opened Bytes
  import opened Rs485

  /** 1 << i. */
  function Mask(i: nat): bv32
    decreases i
  {
    if i == 0 then 1 else Mask(i - 1) << 1
  }

  predicate Test(w: bv32, m: bv32) {
    w & m != 0
  }

  /** The word whose little-endian bytes are `b`. */
  function Word32(b: seq<byte>): bv32
    requires |b| == 4
  {
    (b[0] as bv32) | ((b[1] as bv32) << 8) | ((b[2] as bv32) << 16) | ((b[3] as bv32) << 24)
  }

  function Bytes32(w: bv32): (b: seq<byte>)
    ensures |b| == 4
  {
    [(w & 0xFF) as byte, ((w >> 8) & 0xFF) as byte, ((w >> 16) & 0xFF) as byte, ((w >> 24) & 0xFF) as byte]
  }

  lemma WordOfBytes(w: bv32)
    ensures Word32(Bytes32(w)) == w
  {
  }

  function Or(a: bv32, b: bv32): bv32 {
    a | b
  }

  predicate Apart(a: bv32, b: bv32) {
    a & b == 0
  }

  lemma ShiftedApart(a: bv32, b: bv32)
    requires Apart(a, b)
    ensures Apart(a << 1, b << 1) && Apart(1, b << 1)
  {
  }

  /** Different bits of the word do not overlap. */
  lemma {:induction false} MasksDisjoint(i: nat, j: nat)
    requires i < j
    ensures Apart(Mask(i), Mask(j)) && Apart(Mask(j), Mask(i))
    decreases i
  {
    if i == 0 {
      ShiftedApart(0, Mask(j - 1));
    } else {
      MasksDisjoint(i - 1, j - 1);
      ShiftedApart(Mask(i - 1), Mask(j - 1));
    }
    ApartSymmetric(Mask(i), Mask(j));
  }

  lemma {:induction false} MaskNonZero(i: nat)
    requires i < 32
    ensures Mask(i) != 0
    decreases 32 - i
  {
    match i
    case 31 => assert Mask(24) == 0x0100_0000 by { assert Mask(8) == 0x100; assert Mask(16) == 0x1_0000; }
    case _ =>
      MaskNonZero(i + 1);
  }

  lemma ApartSymmetric(a: bv32, b: bv32)
    ensures Apart(a, b) == Apart(b, a)
  {
  }

  lemma OrElsewhere(w: bv32, m: bv32, n: bv32)
    requires Apart(m, n)
    ensures Test(Or(w, m), n) == Test(w, n)
  {
    AndOverOr(w, m, n);
  }

  lemma AndOverOr(w: bv32, m: bv32, n: bv32)
    requires m & n == 0
    ensures (w | m) & n == w & n
  {
  }

  lemma OrHere(w: bv32, m: bv32)
    requires m != 0
    ensures Test(Or(w, m), m)
  {
    assert (w | m) & m == m;
  }

  /** Bit `i` of the bitmap. */
  predicate BitmapShowsOnline(b: seq<byte>, i: nat)
    requires |b| == 4
  {
    Test(Word32(b), Mask(i))
  }

  lemma SetBit(w: bv32, i: nat, j: nat)
    requires i < 32 && j < 32
    ensures Test(Or(w, Mask(i)), Mask(j)) == (Test(w, Mask(j)) || i == j)
  {
    hide Mask, Test, Or, Apart;
    if i == j {
      MaskNonZero(i);
      OrHere(w, Mask(i));
    } else {
      if i < j {
        MasksDisjoint(i, j);
      } else {
        MasksDisjoint(j, i);
      }
      OrElsewhere(w, Mask(i), Mask(j));
    }
  }

  /** Bit `i` of a word, found by shifting. */
  predicate WordBit(w: bv32, i: nat)
    decreases i
  {
    if i == 0 then w & 1 == 1 else WordBit(w >> 1, i - 1)
  }

  lemma MaskShifts(w: bv32, m: bv32)
    ensures Test(w, m << 1) == Test(w >> 1, m)
  {
    assert w & (m << 1) == ((w >> 1) & m) << 1;
    assert ((w >> 1) & m) & 0x8000_0000 == 0;
  }

  lemma FirstBit(w: bv32)
    ensures Test(w, Mask(0)) == WordBit(w, 0)
  {
    assert w & 1 == 0 || w & 1 == 1;
  }

  lemma NextBit(w: bv32, i: nat)
    ensures Test(w, Mask(i + 1)) == Test(w >> 1, Mask(i)) && WordBit(w, i + 1) == WordBit(w >> 1, i)
  {
    hide Test;
    MaskShifts(w, Mask(i));
  }

  lemma {:induction false} MaskIsBit(w: bv32, i: nat)
    ensures Test(w, Mask(i)) == WordBit(w, i)
    decreases i
  {
    hide Test, Mask, WordBit;
    if i == 0 {
      FirstBit(w);
    } else {
      NextBit(w, i - 1);
      MaskIsBit(w >> 1, i - 1);
    }
  }

  function Shr8(w: bv32): bv32 {
    w >> 8
  }

  lemma NextByte(w: bv32, i: nat)
    ensures WordBit(w, 8 + i) == WordBit(Shr8(w), i)
  {
    assert WordBit(w, 8 + i) == WordBit(w >> 1, 7 + i);
    assert WordBit(w >> 1, 7 + i) == WordBit(w >> 2, 6 + i);
    assert WordBit(w >> 2, 6 + i) == WordBit(w >> 3, 5 + i);
    assert WordBit(w >> 3, 5 + i) == WordBit(w >> 4, 4 + i);
    assert WordBit(w >> 4, 4 + i) == WordBit(w >> 5, 3 + i);
    assert WordBit(w >> 5, 3 + i) == WordBit(w >> 6, 2 + i);
    assert WordBit(w >> 6, 2 + i) == WordBit(w >> 7, 1 + i);
  }

  /** The word and the byte agree on their low `n` bits. */
  predicate SameLow(w: bv32, b: byte, n: nat)
    decreases n
  {
    n == 0 || ((w & 1 == 1) == (b & 1 == 1) && SameLow(w >> 1, b >> 1, n - 1))
  }

  lemma {:induction false} SameLowBit(w: bv32, b: byte, n: nat, j: nat)
    requires j < n && SameLow(w, b, n)
    ensures WordBit(w, j) == BitSet(b, j)
    decreases n
  {
    if j > 0 {
      SameLowBit(w >> 1, b >> 1, n - 1, j - 1);
    }
  }

  predicate LowByteIs(w: bv32, b: byte) {
    w & 0xFF == b as bv32
  }

  lemma LowByteAgrees(w: bv32, b: byte)
    requires LowByteIs(w, b)
    ensures SameLow(w, b, 8)
  {
    assert SameLow(w >> 8, b >> 8, 0);
    assert SameLow(w >> 7, b >> 7, 1);
    assert SameLow(w >> 6, b >> 6, 2);
    assert SameLow(w >> 5, b >> 5, 3);
    assert SameLow(w >> 4, b >> 4, 4);
    assert SameLow(w >> 3, b >> 3, 5);
    assert SameLow(w >> 2, b >> 2, 6);
    assert SameLow(w >> 1, b >> 1, 7);
  }

  lemma ByteSlot(w: bv32, b: byte, j: nat)
    requires LowByteIs(w, b) && j < 8
    ensures WordBit(w, j) == BitSet(b, j)
  {
    hide LowByteIs, SameLow;
    LowByteAgrees(w, b);
    SameLowBit(w, b, 8, j);
  }

  lemma BytesOfWord(b: seq<byte>)
    requires |b| == 4
    ensures var w := Word32(b);
            && LowByteIs(w, b[0]) && LowByteIs(Shr8(w), b[1])
            && LowByteIs(Shr8(Shr8(w)), b[2]) && LowByteIs(Shr8(Shr8(Shr8(w))), b[3])
  {
  }

  /** Slot `i` of the bitmap is bit i mod 8 of byte i / 8. */
  lemma SlotBit(b: seq<byte>, i: nat)
    requires |b| == 4 && i < 32
    ensures BitmapShowsOnline(b, i) == BitSet(b[i / 8], i % 8)
  {
    hide Word32, Mask, Test, Shr8, WordBit, BitSet, LowByteIs;
    var w, j := Word32(b), i % 8;
    var w1, w2 := Shr8(w), Shr8(Shr8(w));
    MaskIsBit(w, i);
    BytesOfWord(b);
    if i < 8 {
      ByteSlot(w, b[0], j);
    } else if i < 16 {
      NextByte(w, j);
      ByteSlot(w1, b[1], j);
    } else if i < 24 {
      NextByte(w, 8 + j);
      NextByte(w1, j);
      ByteSlot(w2, b[2], j);
    } else {
      NextByte(w, 16 + j);
      NextByte(w1, 8 + j);
      NextByte(w2, j);
      ByteSlot(Shr8(w2), b[3], j);
    }
  }

  /** `Generate_Sub_Dev_OnLine` of parse.c. */
  method GenerateSubDevOnLine(cnt: seq<nat>) returns (buf: seq<byte>)
    requires |cnt| == SLOTS
    ensures |buf| == 4
    ensures forall i :: 0 <= i < 32 ==> (BitmapShowsOnline(buf, i) <==> cnt[i] != 3)
  {
    hide Mask, Test, Word32, Bytes32, Or;
    var fgOnLine: bv32 := 0;
    forall j | 0 <= j < SLOTS
      ensures !Test(fgOnLine, Mask(j))
    {
      NothingSet(Mask(j));
    }
    for i := 0 to SLOTS
      invariant forall j :: 0 <= j < SLOTS ==> Test(fgOnLine, Mask(j)) == (j < i && cnt[j] != OFFLINE)
    {
      if cnt[i] != OFFLINE {
        forall j | 0 <= j < SLOTS
          ensures Test(Or(fgOnLine, Mask(i)), Mask(j)) == (Test(fgOnLine, Mask(j)) || i == j)
        {
          SetBit(fgOnLine, i, j);
        }
        fgOnLine := Or(fgOnLine, Mask(i));
      }
    }
    buf := Bytes32(fgOnLine);
    WordOfBytes(fgOnLine);
  }

  lemma NothingSet(m: bv32)
    ensures !Test(0, m)
  {
  }

  /** `Generate_OnLine` of main_xb.c. */
  method GenerateOnLine(msg: string, devNum: nat, cnt: seq<nat>) returns (r: string)
    requires devNum <= |cnt|
    ensures |r| == |msg| + devNum + 2 && r[..|msg|] == msg && r[|msg|] == ',' && r[|r| - 1] == ','
    ensures forall i :: 0 <= i < devNum ==> r[|msg| + 1 + i] == if cnt[i] == 3 then '0' else '1'
  {
    r := msg + ",";
    for i := 1 to devNum + 1
      invariant |r| == |msg| + i && r[..|msg|] == msg && r[|msg|] == ','
      invariant forall j :: 0 <= j < i - 1 ==> r[|msg| + 1 + j] == if cnt[j] == OFFLINE then '0' else '1'
    {
      if cnt[i - 1] == OFFLINE {
        r := r + "0";
      } else {
        r := r + "1";
      }
    }
    r := r + ",";
  }

  /** Both reports, taken in any reachable state: they agree on every discovered device, say
      of each exactly whether three sweeps have passed since it was heard, and the bitmap
      shows every slot beyond the discovered ones online. */
  method ReportBoth(n: nat, es: seq<Event>, msg: string) returns (bitmap: seq<byte>, text: string)
    requires 1 <= n <= SLOTS && AllAdmissible(es)
    ensures |bitmap| == 4 && |text| == |msg| + n + 2
    ensures forall i :: 0 <= i < n ==> (text[|msg| + 1 + i] == '1' <==> BitmapShowsOnline(bitmap, i))
    ensures forall i :: 0 <= i < n ==>
      (BitmapShowsOnline(bitmap, i) <==> Sweeps(Idles(es), n) < Sweeps(IdlesWhenHeard(es, i + 1), n) + 3)
    ensures forall i :: n <= i < SLOTS ==> BitmapShowsOnline(bitmap, i)
  {
    hide Run, Sweeps, BitmapShowsOnline;
    var cnt := Run(n, es).cnt;
    bitmap := GenerateSubDevOnLine(cnt);
    text := GenerateOnLine(msg, n, cnt);
    forall i | 0 <= i < n
      ensures cnt[i] == OFFLINE <==> Sweeps(Idles(es), n) >= Sweeps(IdlesWhenHeard(es, i + 1), n) + 3
    {
      OfflineIff(n, es, i + 1);
    }
    forall i | n <= i < SLOTS
      ensures cnt[i] == 0
    {
      UndiscoveredStayOnline(n, es, i + 1);
    }
  }
}
