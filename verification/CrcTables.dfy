/** The two table-driven CRC implementations and their refinement of the bit-serial one.
    Each 256-entry table is a total lookup function, sixteen entries to a row. */
module CrcTables {
  import opened Bytes
  import opened Crc16

  /** Entry `i mod 16` of one row of a table of words, and of a table of bytes. */
  function Row16(i: byte, v0: bv16, v1: bv16, v2: bv16, v3: bv16, v4: bv16, v5: bv16, v6: bv16, v7: bv16,
                 v8: bv16, v9: bv16, vA: bv16, vB: bv16, vC: bv16, vD: bv16, vE: bv16, vF: bv16): bv16
  {
    match i & 0xF
    case 0x0 => v0
    case 0x1 => v1
    case 0x2 => v2
    case 0x3 => v3
    case 0x4 => v4
    case 0x5 => v5
    case 0x6 => v6
    case 0x7 => v7
    case 0x8 => v8
    case 0x9 => v9
    case 0xA => vA
    case 0xB => vB
    case 0xC => vC
    case 0xD => vD
    case 0xE => vE
    case _ => vF
  }

  function Row8(i: byte, v0: byte, v1: byte, v2: byte, v3: byte, v4: byte, v5: byte, v6: byte, v7: byte,
                 v8: byte, v9: byte, vA: byte, vB: byte, vC: byte, vD: byte, vE: byte, vF: byte): byte
  {
    match i & 0xF
    case 0x0 => v0
    case 0x1 => v1
    case 0x2 => v2
    case 0x3 => v3
    case 0x4 => v4
    case 0x5 => v5
    case 0x6 => v6
    case 0x7 => v7
    case 0x8 => v8
    case 0x9 => v9
    case 0xA => vA
    case 0xB => vB
    case 0xC => vC
    case 0xD => vD
    case 0xE => vE
    case _ => vF
  }

  /** CRC16_TABLE of tools/pacgen.py, row by row. */
  function Word0(i: byte): bv16 {
    Row16(i, 0x0000, 0xC0C1, 0xC181, 0x0140, 0xC301, 0x03C0, 0x0280, 0xC241,
          0xC601, 0x06C0, 0x0780, 0xC741, 0x0500, 0xC5C1, 0xC481, 0x0440)
  }

  function Word1(i: byte): bv16 {
    Row16(i, 0xCC01, 0x0CC0, 0x0D80, 0xCD41, 0x0F00, 0xCFC1, 0xCE81, 0x0E40,
          0x0A00, 0xCAC1, 0xCB81, 0x0B40, 0xC901, 0x09C0, 0x0880, 0xC841)
  }

  function Word2(i: byte): bv16 {
    Row16(i, 0xD801, 0x18C0, 0x1980, 0xD941, 0x1B00, 0xDBC1, 0xDA81, 0x1A40,
          0x1E00, 0xDEC1, 0xDF81, 0x1F40, 0xDD01, 0x1DC0, 0x1C80, 0xDC41)
  }

  function Word3(i: byte): bv16 {
    Row16(i, 0x1400, 0xD4C1, 0xD581, 0x1540, 0xD701, 0x17C0, 0x1680, 0xD641,
          0xD201, 0x12C0, 0x1380, 0xD341, 0x1100, 0xD1C1, 0xD081, 0x1040)
  }

  function Word4(i: byte): bv16 {
    Row16(i, 0xF001, 0x30C0, 0x3180, 0xF141, 0x3300, 0xF3C1, 0xF281, 0x3240,
          0x3600, 0xF6C1, 0xF781, 0x3740, 0xF501, 0x35C0, 0x3480, 0xF441)
  }

  function Word5(i: byte): bv16 {
    Row16(i, 0x3C00, 0xFCC1, 0xFD81, 0x3D40, 0xFF01, 0x3FC0, 0x3E80, 0xFE41,
          0xFA01, 0x3AC0, 0x3B80, 0xFB41, 0x3900, 0xF9C1, 0xF881, 0x3840)
  }

  function Word6(i: byte): bv16 {
    Row16(i, 0x2800, 0xE8C1, 0xE981, 0x2940, 0xEB01, 0x2BC0, 0x2A80, 0xEA41,
          0xEE01, 0x2EC0, 0x2F80, 0xEF41, 0x2D00, 0xEDC1, 0xEC81, 0x2C40)
  }

  function Word7(i: byte): bv16 {
    Row16(i, 0xE401, 0x24C0, 0x2580, 0xE541, 0x2700, 0xE7C1, 0xE681, 0x2640,
          0x2200, 0xE2C1, 0xE381, 0x2340, 0xE101, 0x21C0, 0x2080, 0xE041)
  }

  function Word8(i: byte): bv16 {
    Row16(i, 0xA001, 0x60C0, 0x6180, 0xA141, 0x6300, 0xA3C1, 0xA281, 0x6240,
          0x6600, 0xA6C1, 0xA781, 0x6740, 0xA501, 0x65C0, 0x6480, 0xA441)
  }

  function Word9(i: byte): bv16 {
    Row16(i, 0x6C00, 0xACC1, 0xAD81, 0x6D40, 0xAF01, 0x6FC0, 0x6E80, 0xAE41,
          0xAA01, 0x6AC0, 0x6B80, 0xAB41, 0x6900, 0xA9C1, 0xA881, 0x6840)
  }

  function WordA(i: byte): bv16 {
    Row16(i, 0x7800, 0xB8C1, 0xB981, 0x7940, 0xBB01, 0x7BC0, 0x7A80, 0xBA41,
          0xBE01, 0x7EC0, 0x7F80, 0xBF41, 0x7D00, 0xBDC1, 0xBC81, 0x7C40)
  }

  function WordB(i: byte): bv16 {
    Row16(i, 0xB401, 0x74C0, 0x7580, 0xB541, 0x7700, 0xB7C1, 0xB681, 0x7640,
          0x7200, 0xB2C1, 0xB381, 0x7340, 0xB101, 0x71C0, 0x7080, 0xB041)
  }

  function WordC(i: byte): bv16 {
    Row16(i, 0x5000, 0x90C1, 0x9181, 0x5140, 0x9301, 0x53C0, 0x5280, 0x9241,
          0x9601, 0x56C0, 0x5780, 0x9741, 0x5500, 0x95C1, 0x9481, 0x5440)
  }

  function WordD(i: byte): bv16 {
    Row16(i, 0x9C01, 0x5CC0, 0x5D80, 0x9D41, 0x5F00, 0x9FC1, 0x9E81, 0x5E40,
          0x5A00, 0x9AC1, 0x9B81, 0x5B40, 0x9901, 0x59C0, 0x5880, 0x9841)
  }

  function WordE(i: byte): bv16 {
    Row16(i, 0x8801, 0x48C0, 0x4980, 0x8941, 0x4B00, 0x8BC1, 0x8A81, 0x4A40,
          0x4E00, 0x8EC1, 0x8F81, 0x4F40, 0x8D01, 0x4DC0, 0x4C80, 0x8C41)
  }

  function WordF(i: byte): bv16 {
    Row16(i, 0x4400, 0x84C1, 0x8581, 0x4540, 0x8701, 0x47C0, 0x4680, 0x8641,
          0x8201, 0x42C0, 0x4380, 0x8341, 0x4100, 0x81C1, 0x8081, 0x4040)
  }

  function Table16(i: byte): bv16 {
    match i >> 4
    case 0x0 => Word0(i)
    case 0x1 => Word1(i)
    case 0x2 => Word2(i)
    case 0x3 => Word3(i)
    case 0x4 => Word4(i)
    case 0x5 => Word5(i)
    case 0x6 => Word6(i)
    case 0x7 => Word7(i)
    case 0x8 => Word8(i)
    case 0x9 => Word9(i)
    case 0xA => WordA(i)
    case 0xB => WordB(i)
    case 0xC => WordC(i)
    case 0xD => WordD(i)
    case 0xE => WordE(i)
    case _   => WordF(i)
  }

  /** auchCRCHi of call.c, row by row. */
  function Hi0(i: byte): byte {
    Row8(i, 0x00, 0xC1, 0x81, 0x40, 0x01, 0xC0, 0x80, 0x41,
         0x01, 0xC0, 0x80, 0x41, 0x00, 0xC1, 0x81, 0x40)
  }

  function Hi1(i: byte): byte {
    Row8(i, 0x01, 0xC0, 0x80, 0x41, 0x00, 0xC1, 0x81, 0x40,
         0x00, 0xC1, 0x81, 0x40, 0x01, 0xC0, 0x80, 0x41)
  }

  function Hi2(i: byte): byte {
    Row8(i, 0x01, 0xC0, 0x80, 0x41, 0x00, 0xC1, 0x81, 0x40,
         0x00, 0xC1, 0x81, 0x40, 0x01, 0xC0, 0x80, 0x41)
  }

  function Hi3(i: byte): byte {
    Row8(i, 0x00, 0xC1, 0x81, 0x40, 0x01, 0xC0, 0x80, 0x41,
         0x01, 0xC0, 0x80, 0x41, 0x00, 0xC1, 0x81, 0x40)
  }

  function Hi4(i: byte): byte {
    Row8(i, 0x01, 0xC0, 0x80, 0x41, 0x00, 0xC1, 0x81, 0x40,
         0x00, 0xC1, 0x81, 0x40, 0x01, 0xC0, 0x80, 0x41)
  }

  function Hi5(i: byte): byte {
    Row8(i, 0x00, 0xC1, 0x81, 0x40, 0x01, 0xC0, 0x80, 0x41,
         0x01, 0xC0, 0x80, 0x41, 0x00, 0xC1, 0x81, 0x40)
  }

  function Hi6(i: byte): byte {
    Row8(i, 0x00, 0xC1, 0x81, 0x40, 0x01, 0xC0, 0x80, 0x41,
         0x01, 0xC0, 0x80, 0x41, 0x00, 0xC1, 0x81, 0x40)
  }

  function Hi7(i: byte): byte {
    Row8(i, 0x01, 0xC0, 0x80, 0x41, 0x00, 0xC1, 0x81, 0x40,
         0x00, 0xC1, 0x81, 0x40, 0x01, 0xC0, 0x80, 0x41)
  }

  function Hi8(i: byte): byte {
    Row8(i, 0x01, 0xC0, 0x80, 0x41, 0x00, 0xC1, 0x81, 0x40,
         0x00, 0xC1, 0x81, 0x40, 0x01, 0xC0, 0x80, 0x41)
  }

  function Hi9(i: byte): byte {
    Row8(i, 0x00, 0xC1, 0x81, 0x40, 0x01, 0xC0, 0x80, 0x41,
         0x01, 0xC0, 0x80, 0x41, 0x00, 0xC1, 0x81, 0x40)
  }

  function HiA(i: byte): byte {
    Row8(i, 0x00, 0xC1, 0x81, 0x40, 0x01, 0xC0, 0x80, 0x41,
         0x01, 0xC0, 0x80, 0x41, 0x00, 0xC1, 0x81, 0x40)
  }

  function HiB(i: byte): byte {
    Row8(i, 0x01, 0xC0, 0x80, 0x41, 0x00, 0xC1, 0x81, 0x40,
         0x00, 0xC1, 0x81, 0x40, 0x01, 0xC0, 0x80, 0x41)
  }

  function HiC(i: byte): byte {
    Row8(i, 0x00, 0xC1, 0x81, 0x40, 0x01, 0xC0, 0x80, 0x41,
         0x01, 0xC0, 0x80, 0x41, 0x00, 0xC1, 0x81, 0x40)
  }

  function HiD(i: byte): byte {
    Row8(i, 0x01, 0xC0, 0x80, 0x41, 0x00, 0xC1, 0x81, 0x40,
         0x00, 0xC1, 0x81, 0x40, 0x01, 0xC0, 0x80, 0x41)
  }

  function HiE(i: byte): byte {
    Row8(i, 0x01, 0xC0, 0x80, 0x41, 0x00, 0xC1, 0x81, 0x40,
         0x00, 0xC1, 0x81, 0x40, 0x01, 0xC0, 0x80, 0x41)
  }

  function HiF(i: byte): byte {
    Row8(i, 0x00, 0xC1, 0x81, 0x40, 0x01, 0xC0, 0x80, 0x41,
         0x01, 0xC0, 0x80, 0x41, 0x00, 0xC1, 0x81, 0x40)
  }

  function TableHi(i: byte): byte {
    match i >> 4
    case 0x0 => Hi0(i)
    case 0x1 => Hi1(i)
    case 0x2 => Hi2(i)
    case 0x3 => Hi3(i)
    case 0x4 => Hi4(i)
    case 0x5 => Hi5(i)
    case 0x6 => Hi6(i)
    case 0x7 => Hi7(i)
    case 0x8 => Hi8(i)
    case 0x9 => Hi9(i)
    case 0xA => HiA(i)
    case 0xB => HiB(i)
    case 0xC => HiC(i)
    case 0xD => HiD(i)
    case 0xE => HiE(i)
    case _   => HiF(i)
  }

  /** auchCRCLo of call.c, row by row. */
  function Lo0(i: byte): byte {
    Row8(i, 0x00, 0xC0, 0xC1, 0x01, 0xC3, 0x03, 0x02, 0xC2,
         0xC6, 0x06, 0x07, 0xC7, 0x05, 0xC5, 0xC4, 0x04)
  }

  function Lo1(i: byte): byte {
    Row8(i, 0xCC, 0x0C, 0x0D, 0xCD, 0x0F, 0xCF, 0xCE, 0x0E,
         0x0A, 0xCA, 0xCB, 0x0B, 0xC9, 0x09, 0x08, 0xC8)
  }

  function Lo2(i: byte): byte {
    Row8(i, 0xD8, 0x18, 0x19, 0xD9, 0x1B, 0xDB, 0xDA, 0x1A,
         0x1E, 0xDE, 0xDF, 0x1F, 0xDD, 0x1D, 0x1C, 0xDC)
  }

  function Lo3(i: byte): byte {
    Row8(i, 0x14, 0xD4, 0xD5, 0x15, 0xD7, 0x17, 0x16, 0xD6,
         0xD2, 0x12, 0x13, 0xD3, 0x11, 0xD1, 0xD0, 0x10)
  }

  function Lo4(i: byte): byte {
    Row8(i, 0xF0, 0x30, 0x31, 0xF1, 0x33, 0xF3, 0xF2, 0x32,
         0x36, 0xF6, 0xF7, 0x37, 0xF5, 0x35, 0x34, 0xF4)
  }

  function Lo5(i: byte): byte {
    Row8(i, 0x3C, 0xFC, 0xFD, 0x3D, 0xFF, 0x3F, 0x3E, 0xFE,
         0xFA, 0x3A, 0x3B, 0xFB, 0x39, 0xF9, 0xF8, 0x38)
  }

  function Lo6(i: byte): byte {
    Row8(i, 0x28, 0xE8, 0xE9, 0x29, 0xEB, 0x2B, 0x2A, 0xEA,
         0xEE, 0x2E, 0x2F, 0xEF, 0x2D, 0xED, 0xEC, 0x2C)
  }

  function Lo7(i: byte): byte {
    Row8(i, 0xE4, 0x24, 0x25, 0xE5, 0x27, 0xE7, 0xE6, 0x26,
         0x22, 0xE2, 0xE3, 0x23, 0xE1, 0x21, 0x20, 0xE0)
  }

  function Lo8(i: byte): byte {
    Row8(i, 0xA0, 0x60, 0x61, 0xA1, 0x63, 0xA3, 0xA2, 0x62,
         0x66, 0xA6, 0xA7, 0x67, 0xA5, 0x65, 0x64, 0xA4)
  }

  function Lo9(i: byte): byte {
    Row8(i, 0x6C, 0xAC, 0xAD, 0x6D, 0xAF, 0x6F, 0x6E, 0xAE,
         0xAA, 0x6A, 0x6B, 0xAB, 0x69, 0xA9, 0xA8, 0x68)
  }

  function LoA(i: byte): byte {
    Row8(i, 0x78, 0xB8, 0xB9, 0x79, 0xBB, 0x7B, 0x7A, 0xBA,
         0xBE, 0x7E, 0x7F, 0xBF, 0x7D, 0xBD, 0xBC, 0x7C)
  }

  function LoB(i: byte): byte {
    Row8(i, 0xB4, 0x74, 0x75, 0xB5, 0x77, 0xB7, 0xB6, 0x76,
         0x72, 0xB2, 0xB3, 0x73, 0xB1, 0x71, 0x70, 0xB0)
  }

  function LoC(i: byte): byte {
    Row8(i, 0x50, 0x90, 0x91, 0x51, 0x93, 0x53, 0x52, 0x92,
         0x96, 0x56, 0x57, 0x97, 0x55, 0x95, 0x94, 0x54)
  }

  function LoD(i: byte): byte {
    Row8(i, 0x9C, 0x5C, 0x5D, 0x9D, 0x5F, 0x9F, 0x9E, 0x5E,
         0x5A, 0x9A, 0x9B, 0x5B, 0x99, 0x59, 0x58, 0x98)
  }

  function LoE(i: byte): byte {
    Row8(i, 0x88, 0x48, 0x49, 0x89, 0x4B, 0x8B, 0x8A, 0x4A,
         0x4E, 0x8E, 0x8F, 0x4F, 0x8D, 0x4D, 0x4C, 0x8C)
  }

  function LoF(i: byte): byte {
    Row8(i, 0x44, 0x84, 0x85, 0x45, 0x87, 0x47, 0x46, 0x86,
         0x82, 0x42, 0x43, 0x83, 0x41, 0x81, 0x80, 0x40)
  }

  function TableLo(i: byte): byte {
    match i >> 4
    case 0x0 => Lo0(i)
    case 0x1 => Lo1(i)
    case 0x2 => Lo2(i)
    case 0x3 => Lo3(i)
    case 0x4 => Lo4(i)
    case 0x5 => Lo5(i)
    case 0x6 => Lo6(i)
    case 0x7 => Lo7(i)
    case 0x8 => Lo8(i)
    case 0x9 => Lo9(i)
    case 0xA => LoA(i)
    case 0xB => LoB(i)
    case 0xC => LoC(i)
    case 0xD => LoD(i)
    case 0xE => LoE(i)
    case _   => LoF(i)
  }

  // ---------------------------------------------------------------- what the tables hold

  /** `Shift` written with shifts only. */
  function Feed(r: bv16): bv16 {
    (r >> 1) ^ (r << 15) ^ ((r & 1) << 13) ^ (r & 1)
  }

  function Feed8(r: bv16): bv16 {
    Feed(Feed(Feed(Feed(Feed(Feed(Feed(Feed(r))))))))
  }

  lemma FeedIsShift(r: bv16)
    ensures Feed(r) == Shift(r)
  {
  }

  lemma Feed8IsShifts(r: bv16)
    ensures Feed8(r) == Shifts(8, r)
  {
    hide Feed, Shift;
    var r1, r2, r3 := Shift(r), Shift(Shift(r)), Shift(Shift(Shift(r)));
    var r4, r5, r6 := Shift(r3), Shift(Shift(r3)), Shift(Shift(Shift(r3)));
    FeedIsShift(r);
    FeedIsShift(r1);
    FeedIsShift(r2);
    FeedIsShift(r3);
    FeedIsShift(r4);
    FeedIsShift(r5);
    FeedIsShift(r6);
    FeedIsShift(Shift(r6));
  }

  /** What one entry of the three tables must hold: the register that eight shifts make
      of its index, whole in pacgen.py and split into halves in call.c. */
  predicate Entries(i: byte, word: bv16, hi: byte, lo: byte) {
    word == Feed8(Widen(i)) && hi == LowByte(word) && lo == HighByte(word)
  }

  lemma EntriesOfRow0(i: byte)
    requires i >> 4 == 0x0
    ensures Entries(i, Word0(i), Hi0(i), Lo0(i))
  {
    assert i == i & 0xF;
  }

  lemma EntriesOfRow1(i: byte)
    requires i >> 4 == 0x1
    ensures Entries(i, Word1(i), Hi1(i), Lo1(i))
  {
  }

  lemma EntriesOfRow2(i: byte)
    requires i >> 4 == 0x2
    ensures Entries(i, Word2(i), Hi2(i), Lo2(i))
  {
  }

  lemma EntriesOfRow3(i: byte)
    requires i >> 4 == 0x3
    ensures Entries(i, Word3(i), Hi3(i), Lo3(i))
  {
  }

  lemma EntriesOfRow4(i: byte)
    requires i >> 4 == 0x4
    ensures Entries(i, Word4(i), Hi4(i), Lo4(i))
  {
  }

  lemma EntriesOfRow5(i: byte)
    requires i >> 4 == 0x5
    ensures Entries(i, Word5(i), Hi5(i), Lo5(i))
  {
  }

  lemma EntriesOfRow6(i: byte)
    requires i >> 4 == 0x6
    ensures Entries(i, Word6(i), Hi6(i), Lo6(i))
  {
  }

  lemma EntriesOfRow7(i: byte)
    requires i >> 4 == 0x7
    ensures Entries(i, Word7(i), Hi7(i), Lo7(i))
  {
  }

  lemma EntriesOfRow8(i: byte)
    requires i >> 4 == 0x8
    ensures Entries(i, Word8(i), Hi8(i), Lo8(i))
  {
  }

  lemma EntriesOfRow9(i: byte)
    requires i >> 4 == 0x9
    ensures Entries(i, Word9(i), Hi9(i), Lo9(i))
  {
  }

  lemma EntriesOfRowA(i: byte)
    requires i >> 4 == 0xA
    ensures Entries(i, WordA(i), HiA(i), LoA(i))
  {
  }

  lemma EntriesOfRowB(i: byte)
    requires i >> 4 == 0xB
    ensures Entries(i, WordB(i), HiB(i), LoB(i))
  {
  }

  lemma EntriesOfRowC(i: byte)
    requires i >> 4 == 0xC
    ensures Entries(i, WordC(i), HiC(i), LoC(i))
  {
  }

  lemma EntriesOfRowD(i: byte)
    requires i >> 4 == 0xD
    ensures Entries(i, WordD(i), HiD(i), LoD(i))
  {
  }

  lemma EntriesOfRowE(i: byte)
    requires i >> 4 == 0xE
    ensures Entries(i, WordE(i), HiE(i), LoE(i))
  {
  }

  lemma EntriesOfRowF(i: byte)
    requires i >> 4 == 0xF
    ensures Entries(i, WordF(i), HiF(i), LoF(i))
  {
  }

  lemma TablesHoldEightShifts(i: byte)
    ensures Table16(i) == Shifts(8, Widen(i))
    ensures TableHi(i) == LowByte(Table16(i)) && TableLo(i) == HighByte(Table16(i))
  {
    hide Row16, Row8, Feed8, Shifts, LowByte, HighByte;
    Feed8IsShifts(Widen(i));
    match i >> 4
    case 0x0 => EntriesOfRow0(i);
    case 0x1 => EntriesOfRow1(i);
    case 0x2 => EntriesOfRow2(i);
    case 0x3 => EntriesOfRow3(i);
    case 0x4 => EntriesOfRow4(i);
    case 0x5 => EntriesOfRow5(i);
    case 0x6 => EntriesOfRow6(i);
    case 0x7 => EntriesOfRow7(i);
    case 0x8 => EntriesOfRow8(i);
    case 0x9 => EntriesOfRow9(i);
    case 0xA => EntriesOfRowA(i);
    case 0xB => EntriesOfRowB(i);
    case 0xC => EntriesOfRowC(i);
    case 0xD => EntriesOfRowD(i);
    case 0xE => EntriesOfRowE(i);
    case _   => EntriesOfRowF(i);
  }

  // ---------------------------------------------------------------- one step of each loop

  function Join(hi: byte, lo: byte): bv16 {
    (Widen(hi) << 8) | Widen(lo)
  }

  lemma JoinSplit(r: bv16)
    ensures Join(HighByte(r), LowByte(r)) == r
  {
  }

  lemma ShiftsOfHighHalf(h: byte)
    ensures Shifts(8, Join(h, 0)) == Widen(h)
  {
    Feed8IsShifts(Join(h, 0));
  }

  lemma JoinXorByte(hi: byte, lo: byte, b: byte)
    ensures Xor(Join(hi, lo), Widen(b)) == Xor(Join(hi, 0), Widen(Xor8(lo, b)))
  {
  }

  /** The step both loops take: one lookup replaces eight shifts. */
  lemma LookupStep(hi: byte, lo: byte, b: byte)
    ensures Crc(Join(hi, lo), [b]) == Xor(Widen(hi), Table16(Xor8(lo, b)))
  {
    hide *;
    JoinXorByte(hi, lo, b);
    CrcOfByte(Join(hi, lo), b);
    ShiftsLinear(8, Join(hi, 0), Widen(Xor8(lo, b)));
    ShiftsOfHighHalf(hi);
    TablesHoldEightShifts(Xor8(lo, b));
  }

  lemma TwoTableStep(hi: byte, lo: byte, b: byte)
    ensures Join(TableLo(Xor8(lo, b)), Xor8(hi, TableHi(Xor8(lo, b)))) == Crc(Join(hi, lo), [b])
  {
    hide *;
    LookupStep(hi, lo, b);
    TablesHoldEightShifts(Xor8(lo, b));
    JoinOfHalves(hi, Table16(Xor8(lo, b)));
  }

  lemma JoinOfHalves(hi: byte, w: bv16)
    ensures Join(HighByte(w), Xor8(hi, LowByte(w))) == Xor(Widen(hi), w)
  {
  }

  lemma OneTableStep(r: bv16, b: byte)
    ensures Xor(r >> 8, Table16(LowByte(Xor(r, Widen(b))))) == Crc(r, [b])
  {
    hide *;
    JoinSplit(r);
    LookupStep(HighByte(r), LowByte(r), b);
    HalvesOfXor(r, b);
  }

  lemma HalvesOfXor(r: bv16, b: byte)
    ensures LowByte(Xor(r, Widen(b))) == Xor8(LowByte(r), b) && r >> 8 == Widen(HighByte(r))
  {
  }

  // ---------------------------------------------------------------- the loops

  lemma CrcOfNothing(r: bv16)
    ensures Crc(r, []) == r
  {
  }

  lemma CrcOfNext(r: bv16, m: seq<byte>, i: nat)
    requires i < |m|
    ensures Crc(Crc(r, m[..i]), [m[i]]) == Crc(r, m[..i + 1])
  {
    hide *;
    CrcConcat(r, m[..i], [m[i]]);
    assert m[..i] + [m[i]] == m[..i + 1];
  }

  /** `N_CRC16`: two tables, two register bytes. */
  method NCrc16(updata: seq<byte>, len: nat) returns (crc: bv16)
    requires len <= |updata|
    ensures crc == FrameCrc(updata[..len])
  {
    hide TableHi, TableLo, Crc, Join, Xor8;
    var uchCrcHi: byte, uchCrcLo: byte := 0xFF, 0xFF;
    CrcOfNothing(0xFFFF);
    AllOnes();
    var i := 0;
    while i < len
      invariant 0 <= i <= len
      invariant Join(uchCrcLo, uchCrcHi) == Crc(0xFFFF, updata[..i])
    {
      var uindex := Xor8(uchCrcHi, updata[i]);
      TwoTableStep(uchCrcLo, uchCrcHi, updata[i]);
      CrcOfNext(0xFFFF, updata, i);
      uchCrcHi := Xor8(uchCrcLo, TableHi(uindex));
      uchCrcLo := TableLo(uindex);
      i := i + 1;
    }
    crc := Join(uchCrcLo, uchCrcHi);
  }

  lemma AllOnes()
    ensures Join(0xFF, 0xFF) == 0xFFFF
  {
  }

  /** `calc_crc16`: one table, the register carried in and out. */
  method CalcCrc16(crcBase: bv16, s: seq<byte>) returns (crc: bv16)
    ensures crc == Crc(crcBase, s)
  {
    hide Table16, Crc, Xor, LowByte, Widen;
    crc := crcBase;
    CrcOfNothing(crcBase);
    for i := 0 to |s|
      invariant crc == Crc(crcBase, s[..i])
    {
      OneTableStep(crc, s[i]);
      CrcOfNext(crcBase, s, i);
      crc := Xor(crc >> 8, Table16(LowByte(Xor(crc, Widen(s[i])))));
    }
    assert s[..|s|] == s;
  }
}
