/** The replies and signals of the zone commands, byte by byte. */
module ZoneReplies {
  import opened Bytes
  import opened Crc16
  import opened Layout
  import opened Zones
  import CrcTables
  import Reports

  /** How much memory each opcode needs behind its two first bytes: none, but for three of them. */
  lemma MemoryNeeded(c: Command, capacity: nat)
    requires |c.buf| >= 2 && c.buf[0] == 0 && ProperEnv(c.env)
    ensures c.buf[1] !in {0x05, 0x10, 0x44} ==> Wellformed(c, capacity)
    ensures c.buf[1] == 0x05 ==> (Wellformed(c, capacity) <==> |c.buf| >= 8)
    ensures c.buf[1] == 0x44 ==> (Wellformed(c, capacity) <==> |c.buf| >= 6)
    ensures c.buf[1] == 0x10 ==>
      (Wellformed(c, capacity) <==>
         |c.buf| >= 16 && |c.buf| >= 16 + 6 * (c.buf[15] as int) && c.buf[15] as int <= capacity)
  {
  }

  // ---------------------------------------------------------------- relay commands

  /** The event a relay command signals, from bytes 2 and 3 of the command. */
  lemma RelaySignals(c: Command)
    requires |c.buf| >= 4
    ensures c.buf[2..4] == [0x00, 0x55] ==> RelayOf(GetWord(c.buf, 2)) == AllOn
    ensures c.buf[2..4] == [0x11, 0x55] ==> RelayOf(GetWord(c.buf, 2)) == AllOff
    ensures c.buf[2..4] == [0x22, 0x55] ==> RelayOf(GetWord(c.buf, 2)) == AllClear
    ensures c.buf[2..4] == [0x33, 0x55] ==> RelayOf(GetWord(c.buf, 2)) == AllRestart
    ensures c.buf[3] != 0x55 || c.buf[2] !in {0x00, 0x11, 0x22, 0x33} ==> RelayOf(GetWord(c.buf, 2)) == Unspecified
  {
    var l, h := c.buf[2], c.buf[3];
    assert c.buf[2..4] == [l, h];
    RelayWords();
    SplitJoin(h, l);
    hide CrcTables.Join;
  }

  lemma RelayWords()
    ensures CrcTables.Join(0x55, 0x00) == 0x5500 && CrcTables.Join(0x55, 0x11) == 0x5511
    ensures CrcTables.Join(0x55, 0x22) == 0x5522 && CrcTables.Join(0x55, 0x33) == 0x5533
  {
  }

  // ---------------------------------------------------------------- replies to the other commands

  /** No command writes zone 1: a read after any commands returns the value they began with. */
  lemma {:induction false} Zone1Kept(m: Memory, cs: seq<Command>)
    requires Proper(m) && AllWellformed(cs, |m.white|)
    ensures ExecAll(m, cs).zone1 == m.zone1
    decreases |cs|
  {
    hide GetWord, Entries, Val;
    if cs != [] {
      Zone1Kept(m, cs[..|cs| - 1]);
    }
  }

  lemma ReadZone1(m: Memory, cs: seq<Command>, read: Command, bitmaps: seq<byte>)
    requires Proper(m) && AllWellformed(cs, |m.white|)
    requires Wellformed(read, |m.white|) && Opcode(read) == 0x02 && |bitmaps| == 8
    ensures Reply(ExecAll(m, cs), read, bitmaps) == Closed([0, 2, LowByte(m.zone1), HighByte(m.zone1)])
  {
    hide *;
    Zone1Kept(m, cs);
    Zone1Reply(ExecAll(m, cs), read, bitmaps);
  }

  lemma Zone1Reply(m: Memory, read: Command, bitmaps: seq<byte>)
    requires Proper(m) && Wellformed(read, |m.white|) && Opcode(read) == 0x02 && |bitmaps| == 8
    ensures Reply(m, read, bitmaps) == Closed([0, 2, LowByte(m.zone1), HighByte(m.zone1)])
  {
    hide Closed, LowByte, HighByte;
    assert [0, 2] + WordBytes(m.zone1) == [0, 2, LowByte(m.zone1), HighByte(m.zone1)];
  }

  /** Writes and relay commands are echoed, a zone-4 write is acknowledged, and any other opcode is
      told "byebye", in any settings. */
  lemma OtherReplies(m: Memory, c: Command, bitmaps: seq<byte>)
    requires Proper(m) && Wellformed(c, |m.white|) && |bitmaps| == 8
    ensures c.buf[1] == 0x05 ==> Reply(m, c, bitmaps) == c.buf[..8]
    ensures c.buf[1] == 0x44 ==> Reply(m, c, bitmaps) == c.buf[..6]
    ensures c.buf[1] == 0x10 ==> Reply(m, c, bitmaps) == Closed([0x00, 0x10, 0x01])
    ensures c.buf[1] !in {0x01, 0x02, 0x03, 0x04, 0x05, 0x10, 0x44} ==>
      Reply(m, c, bitmaps) == [0x62, 0x79, 0x65, 0x62, 0x79, 0x65]
  {
    hide Closed;
  }

  // ---------------------------------------------------------------- the status report

  /** Where everything stands in the status report. */
  lemma StatusLayout(m: Memory, c: Command, bitmaps: seq<byte>)
    requires Proper(m) && Wellformed(c, |m.white|) && |bitmaps| == 8 && Opcode(c) == 0x03
    ensures var r, w := Reply(m, c, bitmaps), 6 * m.whiteNum;
            && |r| == 21 + w + 6 * c.env.scanned
            && r[0] == (m.zone0 & 0xFF) as byte && r[1] == (m.zone0 >> 8) as byte
            && r[2] == (m.zone1 & 0xFF) as byte && r[3] == (m.zone1 >> 8) as byte
            && r[8] as int == c.env.devNum && r[9] == 0 && r[10..18] == bitmaps && r[18] as int == m.whiteNum
            && r[19..19 + w] == WhiteArea(m)
  {
    hide CrcBytes, ByteOf, Copies, TemperatureWord, VoltageWord, WhiteArea, Words, WordBytes;
    ReplyLengths(m, c, bitmaps);
    var r, h := Reply(m, c, bitmaps), Zone3Head(m, c.env, bitmaps);
    var ws := [m.zone0, m.zone1, TemperatureWord(c.env), VoltageWord(c.env)];
    assert r[..19] == h;
    assert r[19..19 + 6 * m.whiteNum] == WhiteArea(m);
    FirstWords(ws);
    assert forall i :: 0 <= i < 19 ==> r[i] == h[i];
    assert r[10..18] == h[10..18] == bitmaps;
    ValueOf(c.env.devNum);
    ValueOf(m.whiteNum);
  }

  /** Bit i mod 8 of byte 10 + i / 8, and of byte 14 + i / 8, shows whether slot `i` is online. */
  lemma StatusBitmaps(m: Memory, c: Command, bitmaps: seq<byte>, i: nat)
    requires Proper(m) && Wellformed(c, |m.white|) && |bitmaps| == 8 && Opcode(c) == 0x03 && i < 32
    requires ShowsCounters(bitmaps[..4], c.env.cnt) && ShowsCounters(bitmaps[4..], c.env.cnt)
    ensures |Reply(m, c, bitmaps)| >= 18
    ensures BitSet(Reply(m, c, bitmaps)[10 + i / 8], i % 8) <==> c.env.cnt[i] != 3
    ensures BitSet(Reply(m, c, bitmaps)[14 + i / 8], i % 8) <==> c.env.cnt[i] != 3
  {
    hide Reply, Reports.BitmapShowsOnline, BitSet;
    StatusLayout(m, c, bitmaps);
    var r := Reply(m, c, bitmaps);
    Reports.SlotBit(bitmaps[..4], i);
    Reports.SlotBit(bitmaps[4..], i);
    assert r[10 + i / 8] == r[10..18][i / 8] && r[14 + i / 8] == r[10..18][4 + i / 8];
  }

  lemma ValueOf(n: nat)
    requires n < 256
    ensures ByteOf(n) as int == n
  {
  }

  lemma FirstWords(ws: seq<bv16>)
    requires |ws| == 4
    ensures var s := Words(ws, 4);
            && s[0] == (ws[0] & 0xFF) as byte && s[1] == (ws[0] >> 8) as byte
            && s[2] == (ws[1] & 0xFF) as byte && s[3] == (ws[1] >> 8) as byte
  {
    hide WordBytes;
    assert Words(ws, 4) == WordBytes(ws[0]) + WordBytes(ws[1]) + WordBytes(ws[2]) + WordBytes(ws[3]);
    WordInBytes(ws[0]);
    WordInBytes(ws[1]);
  }

  lemma WordInBytes(w: bv16)
    ensures WordBytes(w)[0] == (w & 0xFF) as byte && WordBytes(w)[1] == (w >> 8) as byte
  {
  }

  /** All that is left of the white list: the last entry in the first place, zeros behind it. */
  lemma WhiteAreaBytes(m: Memory)
    requires Proper(m) && m.whiteNum > 0
    ensures WhiteArea(m)[..6] == m.white[m.whiteNum - 1]
    ensures forall i :: 6 <= i < 6 * m.whiteNum ==> WhiteArea(m)[i] == 0
  {
  }

  /** Each scanned device contributes the same six bytes. */
  lemma ScannedBytes(m: Memory, c: Command, bitmaps: seq<byte>, i: nat)
    requires Proper(m) && Wellformed(c, |m.white|) && |bitmaps| == 8 && Opcode(c) == 0x03 && i < c.env.scanned
    ensures var r, p := Reply(m, c, bitmaps), 19 + 6 * m.whiteNum + 6 * i;
            p + 6 <= |r| && r[p..p + 6] == c.env.scanSlot
  {
    hide CrcBytes, Zone3Head, WhiteArea, Copies;
    var r, e := Reply(m, c, bitmaps), c.env;
    var front, cs := Zone3Head(m, e, bitmaps) + WhiteArea(m), Copies(e.scanSlot, e.scanned);
    CopyAt(e.scanSlot, e.scanned, i);
    assert r == front + cs + CrcBytes(front + cs);
    assert r[|front| + 6 * i..|front| + 6 * i + 6] == cs[6 * i..6 * i + 6];
  }

  lemma {:induction false} CopyAt(slot: seq<byte>, n: nat, i: nat)
    requires |slot| == 6 && i < n
    ensures |Copies(slot, n)| == 6 * n && Copies(slot, n)[6 * i..6 * i + 6] == slot
    decreases n
  {
    if i < n - 1 {
      CopyAt(slot, n - 1, i);
      assert Copies(slot, n)[6 * i..6 * i + 6] == Copies(slot, n - 1)[6 * i..6 * i + 6];
    }
  }

  /** The number two bytes of a report stand for, low byte first. */
  function Number(r: seq<byte>, p: nat): int
    requires p + 2 <= |r|
  {
    r[p] as int + 256 * (r[p + 1] as int)
  }

  lemma TenthsValue(x: real)
    requires x >= 0.0 && InRange(x)
    ensures Tenths(x) as int as real <= 10.0 * x < (Tenths(x) as int + 1) as real
  {
    WordValue((10.0 * x).Floor);
  }

  lemma WordValue(n: int)
    requires 0 <= n < 0x1_0000
    ensures n as bv16 as int == n
  {
    assert n % 0x1_0000 == n;
  }

  lemma NumberOf(r: seq<byte>, p: nat, w: bv16)
    requires p + 2 <= |r| && r[p..p + 2] == WordBytes(w)
    ensures Number(r, p) == w as int
  {
    assert r[p] == r[p..p + 2][0] && r[p + 1] == r[p..p + 2][1];
    HalvesValue(w);
  }

  lemma HalvesValue(w: bv16)
    ensures (w & 0xFF) as byte as int + 256 * ((w >> 8) as byte as int) == w as int
  {
  }

  /** A positive reading is shown as its tenths, rounded down. */
  lemma ReadingsInTenths(m: Memory, c: Command, bitmaps: seq<byte>)
    requires Proper(m) && Wellformed(c, |m.white|) && |bitmaps| == 8 && Opcode(c) == 0x03
    ensures |Reply(m, c, bitmaps)| >= 8
    ensures c.env.temp > 0.0 ==>
      var n := Number(Reply(m, c, bitmaps), 4); n as real <= 10.0 * c.env.temp < (n + 1) as real
    ensures c.env.voltage > 0.0 ==>
      var n := Number(Reply(m, c, bitmaps), 6); n as real <= 10.0 * c.env.voltage < (n + 1) as real
    ensures c.env.voltage <= 0.0 ==> Number(Reply(m, c, bitmaps), 6) == Number(Reply(m, c, bitmaps), 4)
    ensures c.env.temp <= -0.1 ==> Number(Reply(m, c, bitmaps), 4) == c.env.cold as int
  {
    hide Reply, WordBytes, Tenths, Number;
    StatusReadings(m, c, bitmaps);
    NumberOf(Reply(m, c, bitmaps), 4, TemperatureWord(c.env));
    NumberOf(Reply(m, c, bitmaps), 6, VoltageWord(c.env));
    if c.env.temp > 0.0 {
      TenthsValue(c.env.temp);
    }
    if c.env.voltage > 0.0 {
      TenthsValue(c.env.voltage);
    }
  }
}
