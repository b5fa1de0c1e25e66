/** The binary commands of `handle_Net_Cmd` (parse.c): reading and writing the gateway's
    zones, each reply built in the report buffer. */
module Zones {
  import opened Bytes
  import opened Crc16
  import opened Layout
  import opened Rs485
  import CrcTables
  import CrcDetection
  import Reports

  const BYEBYE: seq<byte> := [0x62, 0x79, 0x65, 0x62, 0x79, 0x65]

  // ---------------------------------------------------------------- settings

  /** value_zone_0, value_zone_1, the eight words of Zone4_Info, White_Name_Num and White_Name_Ble. */
  datatype Memory = Memory(zone0: bv16, zone1: bv16, zone4: seq<bv16>, whiteNum: nat, white: seq<seq<byte>>)

  predicate Proper(m: Memory) {
    && |m.zone4| == 8 && m.whiteNum < 256 && m.whiteNum <= |m.white|
    && forall i :: 0 <= i < |m.white| ==> |m.white[i]| == 6
  }

  /** What the zone-3 report reads besides the settings: temperature and voltage, device count,
      miss counters, number of scanned BLE devices and the scan slot they are read from. C leaves
      the conversion of a negative number to an unsigned one open; `cold` is what it yields. */
  datatype Env = Env(temp: real, cold: bv16, voltage: real, devNum: nat, cnt: seq<nat>, scanned: nat,
                     scanSlot: seq<byte>)

  predicate ProperEnv(e: Env) {
    e.devNum < 256 && |e.cnt| == SLOTS && |e.scanSlot| == 6 && InRange(e.temp) && InRange(e.voltage)
  }

  /** Ten times the reading fits a word. */
  predicate InRange(x: real) {
    10.0 * x < 65536.0
  }

  /** `(uint16_t)(x * 10)`. */
  function Tenths(x: real): bv16
    requires x >= 0.0 && InRange(x)
  {
    (10.0 * x).Floor as bv16
  }

  /** The temperature in tenths of a degree. At and just below zero, where the conversion yields 0,
      one is added to the constant 0x65535 cut to a word. */
  function TemperatureWord(e: Env): bv16
    requires ProperEnv(e)
  {
    if e.temp > 0.0 then Tenths(e.temp)
    else if e.temp > -0.1 then 0x5535 + 1
    else e.cold
  }

  /** The voltage in tenths of a volt; without one the word keeps the temperature. */
  function VoltageWord(e: Env): bv16
    requires ProperEnv(e)
  {
    if e.voltage > 0.0 then Tenths(e.voltage) else TemperatureWord(e)
  }

  /** What a reading in tenths ought to show. */
  function Shown(x: real): bv16
    requires x > -0.1 && InRange(x)
  {
    if x > 0.0 then Tenths(x) else 0
  }

  /** `buf` is the memory the handler is pointed at. It never looks at the length of the message,
      so a short one is read on into what stands behind it. */
  datatype Command = Command(buf: seq<byte>, env: Env)

  /** `conver_u8_u16` and `conver_Data_Low_F`. */
  function GetWord(b: seq<byte>, p: nat): bv16
    requires p + 2 <= |b|
  {
    CrcTables.Join(b[p + 1], b[p])
  }

  function WordBytes(w: bv16): (s: seq<byte>)
    ensures |s| == 2
  {
    [LowByte(w), HighByte(w)]
  }

  lemma WordRoundTrip(b: seq<byte>, p: nat)
    requires p + 2 <= |b|
    ensures WordBytes(GetWord(b, p)) == b[p..p + 2]
  {
    SplitJoin(b[p + 1], b[p]);
  }

  lemma SplitJoin(h: byte, l: byte)
    ensures HighByte(CrcTables.Join(h, l)) == h && LowByte(CrcTables.Join(h, l)) == l
  {
  }

  function Opcode(c: Command): byte
    requires |c.buf| >= 2
  {
    c.buf[1]
  }

  /** The command is binary, the memory reaches as far as its opcode reads, and the white list fits. */
  predicate Wellformed(c: Command, capacity: nat) {
    && |c.buf| >= 2 && c.buf[0] == 0 && ProperEnv(c.env)
    && (Opcode(c) == 0x05 ==> |c.buf| >= 8)
    && (Opcode(c) == 0x44 ==> |c.buf| >= 6)
    && (Opcode(c) == 0x10 ==> |c.buf| >= 16 && |c.buf| >= 16 + 6 * Val(c.buf[15]) && Val(c.buf[15]) <= capacity)
  }

  /** Neither text nor binary. */
  predicate Ignored(c: Command) {
    |c.buf| > 0 && c.buf[0] != 0
  }

  // ---------------------------------------------------------------- what a command does to the settings

  function Entries(b: seq<byte>, n: nat): (ss: seq<seq<byte>>)
    requires 16 + 6 * n <= |b|
    ensures |ss| == n && forall i :: 0 <= i < n ==> ss[i] == b[16 + 6 * i..22 + 6 * i]
  {
    seq(n, i requires 0 <= i < n => b[16 + 6 * i..22 + 6 * i])
  }

  function Exec(m: Memory, c: Command): (m': Memory)
    requires Proper(m) && Wellformed(c, |m.white|)
    ensures Proper(m') && |m'.white| == |m.white|
  {
    var b := c.buf;
    if Opcode(c) == 0x05 then m.(zone0 := GetWord(b, 4))
    else if Opcode(c) == 0x10 then
      var n := Val(b[15]);
      m.(zone4 := seq(8, i requires 0 <= i < 8 => GetWord(b, 2 * i)),
         whiteNum := n,
         white := Entries(b, n) + m.white[n..])
    else m
  }

  // ---------------------------------------------------------------- replies

  /** The zone-4 settings as the read command lays them out: fourteen bytes of words, one byte
      of the last word, the white-list count, and the entries (six zeros when there are none). */
  function Zone4Image(m: Memory): seq<byte>
    requires Proper(m)
  {
    Words(m.zone4, 7) + [LowByte(m.zone4[7]), ByteOf(m.whiteNum)]
    + if m.whiteNum == 0 then Zeros(6) else Flat(m.white[..m.whiteNum])
  }

  function Words(ws: seq<bv16>, n: nat): (s: seq<byte>)
    requires n <= |ws|
    ensures |s| == 2 * n
    decreases n
  {
    if n == 0 then [] else Words(ws, n - 1) + WordBytes(ws[n - 1])
  }

  /** The zone-3 report. Every white-list entry is copied to the same place, so only the last
      is left there, and every scanned device is read from the same slot. */
  function Zone3Image(m: Memory, e: Env, bitmaps: seq<byte>): seq<byte>
    requires Proper(m) && ProperEnv(e) && |bitmaps| == 8
  {
    Zone3Head(m, e, bitmaps) + WhiteArea(m) + Copies(e.scanSlot, e.scanned)
  }

  function Zone3Head(m: Memory, e: Env, bitmaps: seq<byte>): (s: seq<byte>)
    requires Proper(m) && ProperEnv(e) && |bitmaps| == 8
    ensures |s| == 19
  {
    Words([m.zone0, m.zone1, TemperatureWord(e), VoltageWord(e)], 4) + [ByteOf(e.devNum), 0] + bitmaps
    + [ByteOf(m.whiteNum)]
  }

  /** Bit i of the four bytes is set exactly when device i + 1 is not offline. */
  predicate ShowsCounters(bitmap: seq<byte>, cnt: seq<nat>)
    requires |cnt| == SLOTS
  {
    |bitmap| == 4 && forall i :: 0 <= i < SLOTS ==> (Reports.BitmapShowsOnline(bitmap, i) <==> cnt[i] != OFFLINE)
  }

  function WhiteArea(m: Memory): (s: seq<byte>)
    requires Proper(m)
    ensures |s| == 6 * m.whiteNum
  {
    if m.whiteNum == 0 then [] else m.white[m.whiteNum - 1] + Zeros(6 * (m.whiteNum - 1))
  }

  function Copies(slot: seq<byte>, n: nat): (s: seq<byte>)
    ensures |s| == n * |slot|
  {
    if n == 0 then [] else Copies(slot, n - 1) + slot
  }

  /** The reply to `c`, given the settings after it and the two 4-byte bitmaps. */
  function Reply(m: Memory, c: Command, bitmaps: seq<byte>): seq<byte>
    requires Proper(m) && Wellformed(c, |m.white|) && |bitmaps| == 8
  {
    var op := Opcode(c);
    if op == 0x01 then Closed([0, 1] + WordBytes(m.zone0))
    else if op == 0x05 then c.buf[..8]
    else if op == 0x02 then Closed([0, 2] + WordBytes(m.zone1))
    else if op == 0x44 then c.buf[..6]
    else if op == 0x03 then Closed(Zone3Image(m, c.env, bitmaps))
    else if op == 0x04 then Closed(Zone4Image(m))
    else if op == 0x10 then Closed([c.buf[0], c.buf[1], 1])
    else BYEBYE
  }

  // ---------------------------------------------------------------- write then read

  lemma {:induction false} WordsOfBuffer(b: seq<byte>, ws: seq<bv16>, n: nat)
    requires n <= |ws| <= 8 && 16 <= |b| && forall i :: 0 <= i < |ws| ==> ws[i] == GetWord(b, 2 * i)
    ensures Words(ws, n) == b[..2 * n]
    decreases n
  {
    hide GetWord, WordBytes;
    if n > 0 {
      WordsOfBuffer(b, ws, n - 1);
      WordRoundTrip(b, 2 * (n - 1));
      assert b[..2 * (n - 1)] + b[2 * (n - 1)..2 * (n - 1) + 2] == b[..2 * n];
    }
  }

  lemma JoinSlices(b: seq<byte>, i: nat, j: nat, k: nat)
    requires i <= j <= k <= |b|
    ensures b[i..j] + b[j..k] == b[i..k]
  {
  }

  lemma {:induction false} FlatOfEntries(b: seq<byte>, ss: seq<seq<byte>>)
    requires 16 + 6 * |ss| <= |b| && forall i :: 0 <= i < |ss| ==> ss[i] == b[16 + 6 * i..22 + 6 * i]
    ensures Flat(ss) == b[16..16 + 6 * |ss|]
    decreases |ss|
  {
    if ss != [] {
      var k := 16 + 6 * (|ss| - 1);
      FlatOfEntries(b, ss[..|ss| - 1]);
      JoinSlices(b, 16, k, k + 6);
    }
  }

  /** A zone-4 write decides the zone-4 image: its own first 16 + 6n bytes, or sixteen and six
      zeros when its count is 0. */
  lemma WriteDecidesZone4(m: Memory, c: Command)
    requires Proper(m) && Wellformed(c, |m.white|) && Opcode(c) == 0x10
    ensures var n := Val(c.buf[15]);
            Zone4Image(Exec(m, c)) == if n == 0 then c.buf[..16] + Zeros(6) else c.buf[..16 + 6 * n]
  {
    hide GetWord, Flat, Words, Zeros, LowByte, HighByte, Val, ByteOf;
    var b, n := c.buf, Val(c.buf[15]);
    var m' := Exec(m, c);
    WordsOfBuffer(b, m'.zone4, 7);
    assert LowByte(m'.zone4[7]) == b[14] by { LowOfWord(b, 14); }
    ByteOfVal(b[15]);
    assert b[..14] + [b[14], b[15]] == b[..16];
    if n > 0 {
      assert m'.white[..n] == Entries(b, n);
      FlatOfEntries(b, Entries(b, n));
      assert b[..16] + b[16..16 + 6 * n] == b[..16 + 6 * n];
    }
  }

  lemma ByteOfVal(b: byte)
    ensures ByteOf(Val(b)) == b
  {
  }

  lemma LowOfWord(b: seq<byte>, p: nat)
    requires p + 2 <= |b|
    ensures LowByte(GetWord(b, p)) == b[p]
  {
    SplitJoin(b[p + 1], b[p]);
  }

  // ---------------------------------------------------------------- every sequence of commands

  predicate AllWellformed(cs: seq<Command>, capacity: nat) {
    forall i :: 0 <= i < |cs| ==> Wellformed(cs[i], capacity)
  }

  function ExecAll(m: Memory, cs: seq<Command>): (m': Memory)
    requires Proper(m) && AllWellformed(cs, |m.white|)
    ensures Proper(m') && |m'.white| == |m.white|
    decreases |cs|
  {
    if cs == [] then m else Exec(ExecAll(m, cs[..|cs| - 1]), cs[|cs| - 1])
  }

  /** Command `k - 1` is the last of `cs` with opcode `op`; none is when `k` is 0. */
  predicate LatestIs(cs: seq<Command>, k: nat, op: byte) {
    && k <= |cs| && (forall j :: 0 <= j < |cs| ==> |cs[j].buf| >= 2)
    && (forall j :: k <= j < |cs| ==> Opcode(cs[j]) != op) && (k > 0 ==> Opcode(cs[k - 1]) == op)
  }

  /** Zone 0 holds bytes 4 and 5 of the latest 0x05 command; nothing else touches it. */
  lemma {:induction false} Zone0IsLatestWrite(m: Memory, cs: seq<Command>, k: nat)
    requires Proper(m) && AllWellformed(cs, |m.white|) && LatestIs(cs, k, 0x05)
    ensures ExecAll(m, cs).zone0 == if k == 0 then m.zone0 else GetWord(cs[k - 1].buf, 4)
    decreases |cs|
  {
    hide GetWord, Proper;
    if k < |cs| {
      Zone0IsLatestWrite(m, cs[..|cs| - 1], k);
    }
  }

  /** The zone-4 image is decided by the latest 0x10 command; nothing else touches it. */
  lemma {:induction false} Zone4IsLatestWrite(m: Memory, cs: seq<Command>, k: nat)
    requires Proper(m) && AllWellformed(cs, |m.white|) && LatestIs(cs, k, 0x10)
    ensures Zone4Image(ExecAll(m, cs)) ==
            if k == 0 then Zone4Image(m)
            else if Val(cs[k - 1].buf[15]) == 0 then cs[k - 1].buf[..16] + Zeros(6)
            else cs[k - 1].buf[..16 + 6 * Val(cs[k - 1].buf[15])]
    decreases |cs|
  {
    hide GetWord, Proper, Words, Zeros, Flat, Val, ByteOf;
    if k < |cs| {
      Zone4IsLatestWrite(m, cs[..|cs| - 1], k);
    } else if k > 0 {
      WriteDecidesZone4(ExecAll(m, cs[..k - 1]), cs[k - 1]);
    }
  }

  /** The first word of a zone-4 write is the command itself: after any such write the high
      temperature limit is 0x1000, whatever was sent. */
  lemma {:induction false} HighLimitIsTheOpcode(m: Memory, cs: seq<Command>, k: nat)
    requires Proper(m) && AllWellformed(cs, |m.white|) && LatestIs(cs, k, 0x10) && k > 0
    ensures ExecAll(m, cs).zone4[0] == 0x1000
    decreases |cs|
  {
    hide GetWord, Entries, Val;
    var past, last := cs[..|cs| - 1], cs[|cs| - 1];
    if k == |cs| {
      OpcodeWord(last.buf);
    } else {
      HighLimitIsTheOpcode(m, past, k);
    }
  }

  lemma OpcodeWord(b: seq<byte>)
    requires |b| >= 2 && b[0] == 0 && b[1] == 0x10
    ensures GetWord(b, 0) == 0x1000
  {
  }

  /** Reading zone 0 after any run returns what was last written to it, closed by its CRC. */
  lemma ReadZone0(m: Memory, cs: seq<Command>, k: nat, read: Command, bitmaps: seq<byte>)
    requires Proper(m) && AllWellformed(cs, |m.white|) && LatestIs(cs, k, 0x05) && k > 0
    requires Wellformed(read, |m.white|) && Opcode(read) == 0x01 && |bitmaps| == 8
    ensures Reply(ExecAll(m, cs), read, bitmaps) == Closed([0, 1] + cs[k - 1].buf[4..6])
  {
    hide Closed, GetWord, ExecAll;
    Zone0IsLatestWrite(m, cs, k);
    WordRoundTrip(cs[k - 1].buf, 4);
  }

  /** Reading zone 4 after any run returns the first 16 + 6n bytes of the latest write, n its
      byte 15 (and six zeros in place of the entries when n is 0), closed by their CRC. */
  lemma ReadZone4(m: Memory, cs: seq<Command>, k: nat, read: Command, bitmaps: seq<byte>)
    requires Proper(m) && AllWellformed(cs, |m.white|) && LatestIs(cs, k, 0x10) && k > 0
    requires Wellformed(read, |m.white|) && Opcode(read) == 0x04 && |bitmaps| == 8
    ensures var w := cs[k - 1].buf;
            Reply(ExecAll(m, cs), read, bitmaps) ==
            Closed(if Val(w[15]) == 0 then w[..16] + Zeros(6) else w[..16 + 6 * Val(w[15])])
  {
    hide Closed, Zone4Image, ExecAll, Zeros;
    Zone4IsLatestWrite(m, cs, k);
  }

  // ---------------------------------------------------------------- replies are closed frames

  /** In any settings these replies pass the receiver's comparison. */
  lemma RepliesMatch(m: Memory, c: Command, bitmaps: seq<byte>)
    requires Proper(m) && Wellformed(c, |m.white|) && |bitmaps| == 8 && c.buf[1] in {0x01, 0x02, 0x03, 0x04, 0x10}
    ensures |Reply(m, c, bitmaps)| >= 2 && CrcDetection.CheckBytesMatch(Reply(m, c, bitmaps))
  {
    hide CrcDetection.CheckBytesMatch, Closed, Zone3Image, Zone4Image;
    var op := Opcode(c);
    if op == 0x01 {
      CrcDetection.ClosedFramesMatch([0, 1] + WordBytes(m.zone0));
    } else if op == 0x02 {
      CrcDetection.ClosedFramesMatch([0, 2] + WordBytes(m.zone1));
    } else if op == 0x03 {
      CrcDetection.ClosedFramesMatch(Zone3Image(m, c.env, bitmaps));
    } else if op == 0x04 {
      CrcDetection.ClosedFramesMatch(Zone4Image(m));
    } else {
      CrcDetection.ClosedFramesMatch([c.buf[0], c.buf[1], 1]);
    }
  }

  /** Their lengths follow from the white-list and scan counts alone. */
  lemma ReplyLengths(m: Memory, c: Command, bitmaps: seq<byte>)
    requires Proper(m) && Wellformed(c, |m.white|) && |bitmaps| == 8
    ensures Opcode(c) == 0x03 ==> |Reply(m, c, bitmaps)| == 21 + 6 * m.whiteNum + 6 * c.env.scanned
    ensures Opcode(c) == 0x04 ==> |Reply(m, c, bitmaps)| == 18 + 6 * if m.whiteNum == 0 then 1 else m.whiteNum
    ensures Opcode(c) == 0x01 || Opcode(c) == 0x02 ==> |Reply(m, c, bitmaps)| == 6
    ensures Opcode(c) == 0x10 ==> |Reply(m, c, bitmaps)| == 5
  {
    hide CrcBytes, WordBytes, Zone4Image, Zone3Head, WhiteArea, Copies;
    Zone4Length(m);
  }

  /** The two readings stand in bytes 4 to 7 of the status report. */
  lemma StatusReadings(m: Memory, c: Command, bitmaps: seq<byte>)
    requires Proper(m) && Wellformed(c, |m.white|) && |bitmaps| == 8 && Opcode(c) == 0x03
    ensures |Reply(m, c, bitmaps)| >= 8
    ensures Reply(m, c, bitmaps)[4..6] == WordBytes(TemperatureWord(c.env))
    ensures Reply(m, c, bitmaps)[6..8] == WordBytes(VoltageWord(c.env))
  {
    hide CrcBytes, WordBytes, ByteOf, WhiteArea, Copies, TemperatureWord, VoltageWord;
    var ws := [m.zone0, m.zone1, TemperatureWord(c.env), VoltageWord(c.env)];
    var r, h := Reply(m, c, bitmaps), Zone3Head(m, c.env, bitmaps);
    assert r[..19] == h;
    FourWords(ws);
    assert h[..8] == Words(ws, 4);
    SubSlice(r, 0, 19, 0, 8);
    SubSlice(r, 0, 8, 4, 6);
    SubSlice(r, 0, 8, 6, 8);
    assert r[0..8] == r[..19][..8];
  }

  lemma FourWords(ws: seq<bv16>)
    requires |ws| == 4
    ensures Words(ws, 4)[4..6] == WordBytes(ws[2]) && Words(ws, 4)[6..8] == WordBytes(ws[3])
  {
    hide WordBytes;
    assert Words(ws, 4) == Words(ws, 2) + WordBytes(ws[2]) + WordBytes(ws[3]);
  }

  lemma SameWords(v: bv16, w: bv16)
    ensures WordBytes(v) == WordBytes(w) <==> v == w
  {
    hide LowByte, HighByte;
    if WordBytes(v) == WordBytes(w) {
      assert WordBytes(v)[0] == WordBytes(w)[0] && WordBytes(v)[1] == WordBytes(w)[1];
      SplitInjective(v, w);
    }
  }

  lemma NoTenths(x: real)
    requires x > 0.0 && InRange(x)
    ensures Tenths(x) == 0 <==> x < 0.1
  {
    var n := (10.0 * x).Floor;
    assert n % 0x1_0000 == n;
    assert n == 0 <==> x < 0.1;
  }

  /** Above -0.1 degrees the report shows the temperature in tenths exactly when it is positive. */
  lemma TemperatureRightIff(m: Memory, c: Command, bitmaps: seq<byte>)
    requires Proper(m) && Wellformed(c, |m.white|) && |bitmaps| == 8 && Opcode(c) == 0x03 && c.env.temp > -0.1
    ensures |Reply(m, c, bitmaps)| >= 8
    ensures Reply(m, c, bitmaps)[4..6] == WordBytes(Shown(c.env.temp)) <==> c.env.temp > 0.0
  {
    hide Reply, TemperatureWord, VoltageWord, WordBytes, Proper, Tenths;
    StatusReadings(m, c, bitmaps);
    SameWords(TemperatureWord(c.env), Shown(c.env.temp));
    TemperatureWords(c.env);
  }

  lemma TemperatureWords(e: Env)
    requires ProperEnv(e) && e.temp > -0.1
    ensures TemperatureWord(e) == if e.temp > 0.0 then Tenths(e.temp) else 0x5536
  {
    hide Tenths;
  }

  /** It shows the voltage in tenths exactly when that is positive, or when it is not but the
      temperature left in the word is positive and below a tenth, which shows as 0 too. */
  lemma VoltageRightIff(m: Memory, c: Command, bitmaps: seq<byte>)
    requires Proper(m) && Wellformed(c, |m.white|) && |bitmaps| == 8 && Opcode(c) == 0x03
    requires c.env.temp > -0.1 && c.env.voltage > -0.1
    ensures |Reply(m, c, bitmaps)| >= 8
    ensures Reply(m, c, bitmaps)[6..8] == WordBytes(Shown(c.env.voltage)) <==>
            c.env.voltage > 0.0 || 0.0 < c.env.temp < 0.1
  {
    hide Reply, TemperatureWord, WordBytes, Proper, Tenths;
    StatusReadings(m, c, bitmaps);
    SameWords(VoltageWord(c.env), Shown(c.env.voltage));
    TemperatureWords(c.env);
    if c.env.temp > 0.0 {
      NoTenths(c.env.temp);
    }
  }

  /** At zero degrees the report shows 0x5536, low byte first, and so it does for the voltage when
      there is none. */
  lemma ZeroDegrees(m: Memory, c: Command, bitmaps: seq<byte>)
    requires Proper(m) && Wellformed(c, |m.white|) && |bitmaps| == 8 && Opcode(c) == 0x03
    requires -0.1 < c.env.temp <= 0.0
    ensures |Reply(m, c, bitmaps)| >= 8 && Reply(m, c, bitmaps)[4..6] == [0x36, 0x55]
    ensures c.env.voltage <= 0.0 ==> Reply(m, c, bitmaps)[6..8] == [0x36, 0x55]
  {
    hide Reply, TemperatureWord, VoltageWord, WordBytes, Proper;
    StatusReadings(m, c, bitmaps);
    ColdWords(c.env);
    ColdBytes();
  }

  lemma ColdWords(e: Env)
    requires ProperEnv(e) && -0.1 < e.temp <= 0.0
    ensures TemperatureWord(e) == 0x5536 && (e.voltage <= 0.0 ==> VoltageWord(e) == 0x5536)
  {
    hide Tenths, TemperatureWord;
    TemperatureWords(e);
  }

  lemma ColdBytes()
    ensures WordBytes(0x5536) == [0x36, 0x55]
  {
  }

  // ---------------------------------------------------------------- the program

  datatype RelayEvent = AllOn | AllOff | AllClear | AllRestart | Unspecified

  /** The event a relay command raises; for other codes the source leaves it unset. */
  function RelayOf(cmd: bv16): RelayEvent {
    if cmd == 0x5500 then AllOn else if cmd == 0x5511 then AllOff
    else if cmd == 0x5522 then AllClear else if cmd == 0x5533 then AllRestart else Unspecified
  }

  /** memcpy into a buffer. */
  method Put(a: array<byte>, at: nat, s: seq<byte>)
    requires at + |s| <= a.Length
    modifies a
    ensures a[..at] == old(a[..at]) && a[at..at + |s|] == s && a[at + |s|..] == old(a[at + |s|..])
  {
    for i := 0 to |s|
      invariant a[..at] == old(a[..at]) && a[at..at + i] == s[..i] && a[at + i..] == old(a[at + i..])
    {
      a[at + i] := s[i];
    }
  }

  method Clear(a: array<byte>)
    modifies a
    ensures a[..] == Zeros(a.Length)
  {
    for i := 0 to a.Length
      invariant forall j :: 0 <= j < i ==> a[j] == 0
    {
      a[i] := 0;
    }
  }

  class ZoneServer {
    var zone0: bv16
    var zone1: bv16
    var zone4: seq<bv16>
    var whiteNum: nat
    var white: seq<seq<byte>>
    const report: array<byte>
    var reportLen: nat
    var signals: seq<RelayEvent>

    ghost function Settings(): Memory
      reads this
    {
      Memory(zone0, zone1, zone4, whiteNum, white)
    }

    constructor (report: array<byte>, settings: Memory)
      ensures this.report == report && Settings() == settings && reportLen == 0 && signals == []
    {
      this.report := report;
      zone0, zone1, zone4 := settings.zone0, settings.zone1, settings.zone4;
      whiteNum, white := settings.whiteNum, settings.white;
      reportLen, signals := 0, [];
    }

    /** Append to what the report holds so far. */
    method Append(at: nat, s: seq<byte>) returns (next: nat)
      requires at + |s| <= report.Length
      modifies report
      ensures next == at + |s| && report[..next] == old(report[..at]) + s
      ensures forall j :: next <= j < report.Length ==> report[j] == old(report[j])
    {
      Put(report, at, s);
      next := at + |s|;
      forall j | next <= j < report.Length
        ensures report[j] == old(report[j])
      {
        assert report[j] == report[next..][j - next];
      }
      assert report[..next] == report[..at] + report[at..next];
    }

    method Begin(s: seq<byte>) returns (next: nat)
      requires |s| <= report.Length
      modifies report
      ensures next == |s| && report[..next] == s
    {
      next := Append(0, s);
    }

    /** Close the first `n` bytes with their CRC, high byte first. */
    method Close(n: nat)
      requires n + 2 <= report.Length
      modifies this`reportLen, report
      ensures reportLen == n + 2 && report[..reportLen] == Closed(old(report[..n]))
    {
      hide FrameCrc, HighByte, LowByte;
      var crc := CrcTables.NCrc16(report[..], n);
      assert report[..][..n] == report[..n];
      reportLen := Append(n, [HighByte(crc), LowByte(crc)]);
    }

    /** Words, low byte first, from the start of the report. */
    method AppendWords(ws: seq<bv16>, n: nat) returns (pos: nat)
      requires n <= |ws| && 2 * n <= report.Length
      modifies report
      ensures pos == 2 * n && report[..pos] == Words(ws, n)
      ensures forall j :: pos <= j < report.Length ==> report[j] == old(report[j])
    {
      hide WordBytes;
      pos := 0;
      for i := 0 to n
        invariant pos == 2 * i && report[..pos] == Words(ws, i)
        invariant forall j :: pos <= j < report.Length ==> report[j] == old(report[j])
      {
        pos := Append(pos, WordBytes(ws[i]));
      }
    }

    /** The fourteen bytes of whole words, then one byte of the eighth (its second byte is
        overwritten by what follows). */
    method AppendZone4Words() returns (pos: nat)
      requires Proper(Settings()) && report.Length >= 16
      modifies report
      ensures pos == 15 && report[..15] == Words(zone4, 7) + [LowByte(zone4[7])]
    {
      hide WordBytes, LowByte, HighByte;
      pos := AppendWords(zone4, 7);
      var next := Append(pos, WordBytes(zone4[7]));
      pos := pos + 1;
      FirstOfWord(report[..next], Words(zone4, 7), zone4[7]);
      assert report[..next][..pos] == report[..pos];
    }

    /** The white list, or six zeros. */
    method AppendWhiteList(at: nat) returns (pos: nat)
      requires Proper(Settings()) && at + 6 + 6 * whiteNum <= report.Length
      modifies report
      ensures at <= pos <= report.Length
      ensures report[..pos] == old(report[..at]) + if whiteNum == 0 then Zeros(6) else Flat(white[..whiteNum])
    {
      pos := at;
      if whiteNum == 0 {
        pos := Append(pos, Zeros(6));
      } else {
        for nnn := 0 to whiteNum
          invariant pos == at + 6 * nnn && report[..pos] == old(report[..at]) + Flat(white[..nnn])
        {
          assert white[..nnn + 1][..nnn] == white[..nnn];
          assert |white[nnn]| == 6;
          pos := Append(pos, white[nnn]);
        }
      }
    }

    /** Command 0x04: read zone 4. */
    method ReadZone4Fields()
      requires Proper(Settings()) && 24 + 6 * whiteNum <= report.Length
      modifies this`reportLen, report
      ensures reportLen <= report.Length && report[..reportLen] == Closed(Zone4Image(Settings()))
    {
      hide Closed, WordBytes, LowByte, HighByte, ByteOf, Words, Flat, Zeros;
      Zone4Length(Settings());
      var pos := AppendZone4Words();
      pos := Append(pos, [ByteOf(whiteNum)]);
      assert report[..pos] == Words(zone4, 7) + [LowByte(zone4[7]), ByteOf(whiteNum)];
      pos := AppendWhiteList(pos);
      assert report[..pos] == Zone4Image(Settings());
      Close(pos);
    }

    /** The copy loop of the white list. */
    method StoreNames(buf: seq<byte>, n: nat) returns (names: seq<seq<byte>>)
      requires n <= |white| && 16 + 6 * n <= |buf|
      ensures names == Entries(buf, n) + white[n..]
    {
      names := white;
      var position := 16;
      for nnn := 0 to n
        invariant position == 16 + 6 * nnn && |names| == |white|
        invariant forall i :: 0 <= i < nnn ==> names[i] == buf[16 + 6 * i..22 + 6 * i]
        invariant forall i :: nnn <= i < |white| ==> names[i] == white[i]
      {
        names := names[nnn := buf[position..position + 6]];
        position := position + 6;
      }
    }

    /** Command 0x10: write zone 4 and the white list, acknowledge. */
    method WriteZone4Fields(c: Command)
      requires Proper(Settings()) && Wellformed(c, |white|) && Opcode(c) == 0x10 && report.Length >= 5
      modifies this`zone4, this`whiteNum, this`white, this`reportLen, report
      ensures Settings() == Exec(old(Settings()), c)
      ensures reportLen == 5 && report[..5] == Closed([c.buf[0], c.buf[1], 1])
    {
      hide Closed, GetWord, Val;
      var buf := c.buf;
      zone4 := [GetWord(buf, 0), GetWord(buf, 2), GetWord(buf, 4), GetWord(buf, 6),
                GetWord(buf, 8), GetWord(buf, 10), GetWord(buf, 12), GetWord(buf, 14)];
      whiteNum := Val(buf[15]);
      var names := StoreNames(buf, whiteNum);
      white := names;
      assert zone4 == seq(8, i requires 0 <= i < 8 => GetWord(buf, 2 * i));
      var pos := Append(0, [buf[0], buf[1], 1]);
      assert report[..3] == [buf[0], buf[1], 1];
      Close(pos);
    }

    /** Command 0x03: the status report, built over a cleared buffer. */
    method ReadZone3Fields(e: Env) returns (bitmaps: seq<byte>)
      requires Proper(Settings()) && ProperEnv(e) && 21 + 6 * whiteNum + 6 * e.scanned <= report.Length
      requires report[19..] == Zeros(report.Length - 19)
      modifies this`reportLen, report
      ensures |bitmaps| == 8 && ShowsCounters(bitmaps[..4], e.cnt) && ShowsCounters(bitmaps[4..], e.cnt)
      ensures reportLen <= report.Length && report[..reportLen] == Closed(Zone3Image(Settings(), e, bitmaps))
    {
      hide Closed, Words, ByteOf, Zone3Head, WhiteArea, Copies;
      bitmaps := AppendZone3Head(e);
      var pos := AppendZone3Lists(e);
      assert Zone3Head(Settings(), e, bitmaps) + (WhiteArea(Settings()) + Copies(e.scanSlot, e.scanned))
          == Zone3Image(Settings(), e, bitmaps);
      Close(pos);
    }

    method AppendZone3Head(e: Env) returns (bitmaps: seq<byte>)
      requires Proper(Settings()) && ProperEnv(e) && 19 <= report.Length
      modifies report
      ensures |bitmaps| == 8 && ShowsCounters(bitmaps[..4], e.cnt) && ShowsCounters(bitmaps[4..], e.cnt)
      ensures report[..19] == Zone3Head(Settings(), e, bitmaps) && report[19..] == old(report[19..])
    {
      hide Words, ByteOf, TemperatureWord, VoltageWord, Zone3Head, ShowsCounters;
      var onLine := OnLineBitmap(e);
      var onOff := OnLineBitmap(e);
      bitmaps := onLine + onOff;
      assert bitmaps[..4] == onLine && bitmaps[4..] == onOff;
      var pos := AppendReadings(e);
      pos := Append(pos, [ByteOf(e.devNum), 0]);
      pos := Append(pos, onLine);
      pos := Append(pos, onOff);
      pos := Append(pos, [ByteOf(whiteNum)]);
      HeadPieces(Settings(), e, onLine, onOff);
    }

    /** The two zone values, then temperature and voltage. */
    method AppendReadings(e: Env) returns (pos: nat)
      requires ProperEnv(e) && 8 <= report.Length
      modifies report
      ensures pos == 8 && report[..8] == Words([zone0, zone1, TemperatureWord(e), VoltageWord(e)], 4)
      ensures forall j :: 8 <= j < report.Length ==> report[j] == old(report[j])
    {
      hide Words, Tenths, TemperatureWord;
      var temperature := TemperatureOf(e);
      var tmp := temperature;
      if e.voltage > 0.0 {
        tmp := Tenths(e.voltage);
      }
      pos := AppendWords([zone0, zone1, temperature, tmp], 4);
    }

    method TemperatureOf(e: Env) returns (tmp: bv16)
      requires ProperEnv(e)
      ensures tmp == TemperatureWord(e)
    {
      hide Tenths;
      if e.temp > 0.0 {
        tmp := Tenths(e.temp);
      } else if e.temp > -0.1 {
        tmp := 0x5535;
        tmp := tmp + 1;
      } else {
        tmp := e.cold;
      }
    }

    method OnLineBitmap(e: Env) returns (bitmap: seq<byte>)
      requires ProperEnv(e)
      ensures |bitmap| == 4 && ShowsCounters(bitmap, e.cnt)
    {
      bitmap := Reports.GenerateSubDevOnLine(e.cnt);
    }

    /** Every white-list entry is copied to offset 19. */
    method AppendZone3Names() returns (position: nat)
      requires Proper(Settings()) && 19 + 6 * whiteNum <= report.Length && report[19..] == Zeros(report.Length - 19)
      modifies report
      ensures position == 19 + 6 * whiteNum && report[..position] == old(report[..19]) + WhiteArea(Settings())
    {
      hide Zeros;
      position := 19;
      ghost var n := report.Length - 19;
      for nnn := 0 to whiteNum
        invariant position == 19 + 6 * nnn && report[..19] == old(report[..19])
        invariant nnn == 0 ==> report[19..] == Zeros(n)
        invariant nnn > 0 ==> report[19..25] == white[nnn - 1] && report[25..] == Zeros(n - 6)
      {
        assert report[25..] == report[19..][6..];
        ZerosApart(n, 6);
        Put(report, 19, white[nnn]);
        position := position + 6;
      }
      NamesArea(report[..], position, n);
    }

    /** Then every scanned device, read from the same slot. */
    method AppendZone3Lists(e: Env) returns (position: nat)
      requires Proper(Settings()) && ProperEnv(e) && 19 + 6 * whiteNum + 6 * e.scanned <= report.Length
      requires report[19..] == Zeros(report.Length - 19)
      modifies report
      ensures position == 19 + 6 * whiteNum + 6 * e.scanned
      ensures report[..position] == old(report[..19]) + (WhiteArea(Settings()) + Copies(e.scanSlot, e.scanned))
    {
      hide WhiteArea, Copies, Zeros;
      ghost var head := report[..19];
      position := AppendZone3Names();
      NoCopies(e.scanSlot, WhiteArea(Settings()));
      for i := 0 to e.scanned
        invariant position == 19 + 6 * whiteNum + 6 * i
        invariant report[..position] == head + (WhiteArea(Settings()) + Copies(e.scanSlot, i))
      {
        position := Append(position, e.scanSlot);
        NextCopy(head, WhiteArea(Settings()), e.scanSlot, i);
      }
    }

    /** What `handle_Net_Cmd` does with all but the text commands. A first byte other than 0 only
        clears the report. */
    method HandleNetCmd(c: Command) returns (bitmaps: seq<byte>)
      requires Proper(Settings()) && (Wellformed(c, |white|) || Ignored(c))
      requires report.Length >= 30 + 6 * |white| + 6 * c.env.scanned
      modifies this, report
      ensures |bitmaps| == 8
      ensures Ignored(c) ==> Settings() == old(Settings()) && reportLen == old(reportLen) && signals == old(signals)
      ensures Ignored(c) ==> report[..] == Zeros(report.Length)
      ensures !Ignored(c) ==> Settings() == Exec(old(Settings()), c)
      ensures !Ignored(c) && Opcode(c) == 0x03 ==>
        ShowsCounters(bitmaps[..4], c.env.cnt) && ShowsCounters(bitmaps[4..], c.env.cnt)
      ensures !Ignored(c) ==> reportLen <= report.Length && report[..reportLen] == Reply(Settings(), c, bitmaps)
      ensures !Ignored(c) ==>
        signals == old(signals) + if Opcode(c) == 0x44 then [RelayOf(GetWord(c.buf, 2))] else []
    {
      hide Closed, WordBytes, Zone3Image, Zone4Image, GetWord, Entries, Val;
      bitmaps := Zeros(8);
      Clear(report);
      if c.buf[0] == 0 {
        bitmaps := BinaryCommand(c);
      }
    }

    /** The binary branch. */
    method BinaryCommand(c: Command) returns (bitmaps: seq<byte>)
      requires Proper(Settings()) && Wellformed(c, |white|) && report[..] == Zeros(report.Length)
      requires report.Length >= 30 + 6 * |white| + 6 * c.env.scanned
      modifies this, report
      ensures Settings() == Exec(old(Settings()), c)
      ensures |bitmaps| == 8
      ensures Opcode(c) == 0x03 ==> ShowsCounters(bitmaps[..4], c.env.cnt) && ShowsCounters(bitmaps[4..], c.env.cnt)
      ensures reportLen <= report.Length && report[..reportLen] == Reply(Settings(), c, bitmaps)
      ensures signals == old(signals) + if Opcode(c) == 0x44 then [RelayOf(GetWord(c.buf, 2))] else []
    {
      hide Closed, WordBytes, Zone3Image, Zone4Image, GetWord, Entries, Val;
      var buf, op := c.buf, Opcode(c);
      bitmaps := Zeros(8);
      if op == 0x01 {
        var pos := Begin([0, 1] + WordBytes(zone0));
        Close(pos);
      } else if op == 0x05 {
        zone0 := GetWord(buf, 4);
        reportLen := Begin(buf[..8]);
      } else if op == 0x02 {
        var pos := Begin([0, 2] + WordBytes(zone1));
        Close(pos);
      } else if op == 0x44 {
        reportLen := Begin(buf[..6]);
        signals := signals + [RelayOf(GetWord(buf, 2))];
      } else if op == 0x03 {
        assert report[19..] == Zeros(report.Length - 19);
        bitmaps := ReadZone3Fields(c.env);
      } else if op == 0x04 {
        ReadZone4Fields();
      } else if op == 0x10 {
        WriteZone4Fields(c);
      } else {
        reportLen := Begin(BYEBYE);
      }
    }
  }

  lemma HeadPieces(m: Memory, e: Env, onLine: seq<byte>, onOff: seq<byte>)
    requires Proper(m) && ProperEnv(e) && |onLine| == |onOff| == 4
    ensures Words([m.zone0, m.zone1, TemperatureWord(e), VoltageWord(e)], 4) + [ByteOf(e.devNum), 0] + onLine + onOff
            + [ByteOf(m.whiteNum)] == Zone3Head(m, e, onLine + onOff)
  {
    hide Words, ByteOf, TemperatureWord, VoltageWord;
    var ws := Words([m.zone0, m.zone1, TemperatureWord(e), VoltageWord(e)], 4);
    assert ws + [ByteOf(e.devNum), 0] + onLine + onOff == ws + [ByteOf(e.devNum), 0] + (onLine + onOff);
  }

  lemma ZerosApart(n: nat, k: nat)
    requires k <= n
    ensures Zeros(n)[..k] == Zeros(k) && Zeros(n)[k..] == Zeros(n - k)
  {
  }

  /** The report up to `position`: its head, what stands at 19, zeros. */
  lemma NamesArea(r: seq<byte>, position: nat, n: nat)
    requires 19 <= position <= |r| == 19 + n && (position == 19 || position >= 25)
    requires position >= 25 ==> r[25..] == Zeros(n - 6)
    ensures position >= 25 ==> r[..position] == r[..19] + (r[19..25] + Zeros(position - 25))
  {
    hide Zeros;
    if position >= 25 {
      ZerosApart(n - 6, position - 25);
      assert r[25..position] == r[25..][..position - 25];
      assert r[..position] == r[..19] + (r[19..25] + r[25..position]);
    }
  }

  lemma NoCopies(slot: seq<byte>, front: seq<byte>)
    ensures front + Copies(slot, 0) == front
  {
  }

  lemma NextCopy(head: seq<byte>, front: seq<byte>, slot: seq<byte>, i: nat)
    ensures head + (front + Copies(slot, i)) + slot == head + (front + Copies(slot, i + 1))
  {
    var c := Copies(slot, i);
    assert head + (front + c) + slot == head + (front + (c + slot));
  }

  lemma FirstOfWord(r: seq<byte>, ws: seq<byte>, w: bv16)
    requires r == ws + WordBytes(w)
    ensures r[..|ws| + 1] == ws + [LowByte(w)]
  {
  }

  lemma Zone4Length(m: Memory)
    requires Proper(m)
    ensures |Zone4Image(m)| == 16 + 6 * if m.whiteNum == 0 then 1 else m.whiteNum
  {
    hide WordBytes, Flat;
    if m.whiteNum > 0 {
      var ss := m.white[..m.whiteNum];
      StartOfUniform(ss, |ss|, 6);
      assert ss[..|ss|] == ss;
    }
  }
}