/** PAC images (tools/pacgen.py): a 2124-byte header, one 2580-byte header per file, then the
    file contents. Texts are taken as the bytes `encode('utf-16le')` gives; the XML entry is
    an input. */
module Pac {
  import opened Bytes
  import opened Layout
  import Crc16
  import CrcTables

  const PAC_HEADER_SIZE: nat := 2124
  const FILE_HEADER_SIZE: nat := 2580
  const MAGIC: nat := 0xFFFA_FFFA

  datatype File = File(id: seq<byte>, name: seq<byte>, flag: int, defaultCheck: int, canOmit: int, address: int,
                       content: seq<byte>)

  datatype Settings = Settings(version: seq<byte>, prdName: seq<byte>, prdVersion: seq<byte>, prdAlias: seq<byte>,
                               mode: int, flashType: int, nandStrategy: int, isNvBackup: int, nandPageType: int,
                               omaDmProductFlag: int, isOmaDm: int, isPreload: int)

  /** `struct` refuses anything else in a field of format `I`. */
  predicate Fits32(n: int) {
    0 <= n < 0x1_0000_0000
  }

  // ---------------------------------------------------------------- headers

  predicate FileFits(f: File, offset: int) {
    && Fits32(|f.content|) && Fits32(f.flag) && Fits32(f.defaultCheck) && Fits32(offset)
    && Fits32(f.canOmit) && Fits32(f.address)
  }

  function FileNames(f: File): (s: seq<byte>)
    ensures |s| == 1540
  {
    Pack32(FILE_HEADER_SIZE) + Fixed(f.id, 512) + Fixed(f.name, 512) + Zeros(512)
  }

  function FileNumbers(f: File, offset: int): (ws: seq<int>)
    requires FileFits(f, offset)
    ensures |ws| == 11 && Words32(ws)
  {
    [|f.content|, f.flag, f.defaultCheck, offset, f.canOmit, 1, f.address, 0, 0, 0, 0]
  }

  /** `file_header`. */
  function FileHeader(f: File, offset: int): (s: seq<byte>)
    requires FileFits(f, offset)
    ensures |s| == FILE_HEADER_SIZE
  {
    FileNames(f) + PackWords(FileNumbers(f, offset)) + Zeros(996)
  }

  /** Every field of an entry's header, read at its place. */
  lemma ReadFileHeader(f: File, offset: int)
    requires FileFits(f, offset)
    ensures var h := FileHeader(f, offset);
            && |h| == 2580 && Unpack32(h, 0) == 2580
            && h[4..516] == Fixed(f.id, 512) && h[516..1028] == Fixed(f.name, 512)
            && Unpack32(h, 1540) == |f.content| && Unpack32(h, 1544) == f.flag && Unpack32(h, 1548) == f.defaultCheck
            && Unpack32(h, 1552) == offset && Unpack32(h, 1556) == f.canOmit && Unpack32(h, 1560) == 1
            && Unpack32(h, 1564) == f.address
            && Unpack32(h, 1568) == 0 && Unpack32(h, 1572) == 0 && Unpack32(h, 1576) == 0 && Unpack32(h, 1580) == 0
            && AllZero(h, 1028, 1540) && AllZero(h, 1584, 2580)
  {
    hide Pack32, Unpack32, Zeros, Fixed, PackWords, AllZero;
    var h, ws := FileHeader(f, offset), FileNumbers(f, offset);
    assert h[..1540] == FileNames(f) && h[1540..1584] == PackWords(ws);
    assert h[..4] == h[..1540][..4] == Pack32(FILE_HEADER_SIZE);
    assert h[4..516] == h[..1540][4..516] == Fixed(f.id, 512);
    assert h[516..1028] == h[..1540][516..1028] == Fixed(f.name, 512);
    Field32(h, 0, FILE_HEADER_SIZE);
    forall k | 0 <= k < 11
      ensures Unpack32(h, 1540 + 4 * k) == ws[k]
    {
      WordIn(h, 1540, ws, k);
    }
    assert Unpack32(h, 1540 + 4 * 0) == ws[0] && Unpack32(h, 1540 + 4 * 1) == ws[1];
    assert Unpack32(h, 1540 + 4 * 2) == ws[2] && Unpack32(h, 1540 + 4 * 3) == ws[3];
    assert Unpack32(h, 1540 + 4 * 4) == ws[4] && Unpack32(h, 1540 + 4 * 5) == ws[5];
    assert Unpack32(h, 1540 + 4 * 6) == ws[6] && Unpack32(h, 1540 + 4 * 7) == ws[7];
    assert Unpack32(h, 1540 + 4 * 8) == ws[8] && Unpack32(h, 1540 + 4 * 9) == ws[9];
    assert Unpack32(h, 1540 + 4 * 10) == ws[10];
    assert h[1028..1540] == h[..1540][1028..1540] == Zeros(512) && h[1584..2580] == Zeros(996);
    ZerosThere(h, 1028, 1540);
    ZerosThere(h, 1584, 2580);
  }

  predicate AllZero(s: seq<byte>, from: nat, to: nat) {
    from <= to <= |s| && forall i :: from <= i < to ==> s[i] == 0
  }

  lemma ZerosThere(s: seq<byte>, from: nat, to: nat)
    requires from <= to <= |s| && s[from..to] == Zeros(to - from)
    ensures AllZero(s, from, to)
  {
    forall i | from <= i < to
      ensures s[i] == 0
    {
      assert s[i] == s[from..to][i - from];
    }
  }

  predicate SettingsFit(c: Settings, pacSize: int, count: int) {
    && Fits32(pacSize) && Fits32(count) && Fits32(c.mode) && Fits32(c.flashType) && Fits32(c.nandStrategy)
    && Fits32(c.isNvBackup) && Fits32(c.nandPageType)
    && Fits32(c.omaDmProductFlag) && Fits32(c.isOmaDm) && Fits32(c.isPreload)
  }

  function HeaderNumbers(c: Settings, pacSize: int, count: int): (ws: seq<int>)
    requires SettingsFit(c, pacSize, count)
    ensures |ws| == 7 && Words32(ws)
  {
    [count, PAC_HEADER_SIZE, c.mode, c.flashType, c.nandStrategy, c.isNvBackup, c.nandPageType]
  }

  function HeaderFlags(c: Settings, pacSize: int, count: int): (ws: seq<int>)
    requires SettingsFit(c, pacSize, count)
    ensures |ws| == 3 && Words32(ws)
  {
    [c.omaDmProductFlag, c.isOmaDm, c.isPreload]
  }

  function HeaderNames(c: Settings, pacSize: int): (s: seq<byte>)
    requires Fits32(pacSize)
    ensures |s| == 1076
  {
    Fixed(c.version, 48) + Pack32(pacSize) + Fixed(c.prdName, 512) + Fixed(c.prdVersion, 512)
  }

  /** The PAC header up to its two checksums. */
  function HeaderNoCrc(c: Settings, pacSize: int, count: int): (s: seq<byte>)
    requires SettingsFit(c, pacSize, count)
    ensures |s| == 2120
  {
    HeaderNames(c, pacSize) + PackWords(HeaderNumbers(c, pacSize, count)) + Fixed(c.prdAlias, 200)
    + PackWords(HeaderFlags(c, pacSize, count)) + Zeros(800) + Pack32(MAGIC)
  }

  /** What a reader finds in the first 2120 bytes. */
  predicate HeaderHolds(h: seq<byte>, c: Settings, pacSize: int, count: int) {
    && |h| >= 2120
    && h[..48] == Fixed(c.version, 48) && Unpack32(h, 48) == pacSize
    && h[52..564] == Fixed(c.prdName, 512) && h[564..1076] == Fixed(c.prdVersion, 512)
    && Unpack32(h, 1076) == count && Unpack32(h, 1080) == 2124
    && Unpack32(h, 1084) == c.mode && Unpack32(h, 1088) == c.flashType && Unpack32(h, 1092) == c.nandStrategy
    && Unpack32(h, 1096) == c.isNvBackup && Unpack32(h, 1100) == c.nandPageType
    && h[1104..1304] == Fixed(c.prdAlias, 200)
    && Unpack32(h, 1304) == c.omaDmProductFlag && Unpack32(h, 1308) == c.isOmaDm && Unpack32(h, 1312) == c.isPreload
    && AllZero(h, 1316, 2116) && Unpack32(h, 2116) == 0xFFFA_FFFA
  }

  lemma ReadNames(c: Settings, pacSize: int)
    requires Fits32(pacSize)
    ensures var s := HeaderNames(c, pacSize);
            && s[..48] == Fixed(c.version, 48) && s[48..52] == Pack32(pacSize)
            && s[52..564] == Fixed(c.prdName, 512) && s[564..1076] == Fixed(c.prdVersion, 512)
  {
    hide Pack32, Fixed;
  }

  /** The six parts of the header, each at its place. */
  lemma HeaderParts(h: seq<byte>, a: seq<byte>, b: seq<byte>, c: seq<byte>, d: seq<byte>, e: seq<byte>, f: seq<byte>)
    requires h == a + b + c + d + e + f
    requires |a| == 1076 && |b| == 28 && |c| == 200 && |d| == 12 && |e| == 800 && |f| == 4
    ensures |h| == 2120 && h[..1076] == a && h[1076..1104] == b && h[1104..1304] == c
    ensures h[1304..1316] == d && h[1316..2116] == e && h[2116..] == f
  {
  }

  /** Every field of a PAC header, read at its place. */
  lemma ReadHeader(c: Settings, pacSize: int, count: int)
    requires SettingsFit(c, pacSize, count)
    ensures HeaderHolds(HeaderNoCrc(c, pacSize, count), c, pacSize, count)
  {
    hide Pack32, Unpack32, Zeros, Fixed, PackWords, HeaderNames, AllZero;
    var h, ws, fs := HeaderNoCrc(c, pacSize, count), HeaderNumbers(c, pacSize, count), HeaderFlags(c, pacSize, count);
    HeaderParts(h, HeaderNames(c, pacSize), PackWords(ws), Fixed(c.prdAlias, 200), PackWords(fs), Zeros(800),
                Pack32(MAGIC));
    ReadNames(c, pacSize);
    assert h[..48] == h[..1076][..48] && h[48..52] == h[..1076][48..52];
    assert h[52..564] == h[..1076][52..564] && h[564..1076] == h[..1076][564..1076];
    Field32(h, 48, pacSize);
    Field32(h, 2116, MAGIC);
    WordsHold(h, 1076, ws, 1304, fs);
    ZerosThere(h, 1316, 2116);
  }

  lemma WordsHold(h: seq<byte>, p: nat, ws: seq<int>, q: nat, fs: seq<int>)
    requires Words32(ws) && Words32(fs) && |ws| == 7 && |fs| == 3 && p + 28 <= |h| && q + 12 <= |h|
    requires h[p..p + 28] == PackWords(ws) && h[q..q + 12] == PackWords(fs)
    ensures Unpack32(h, p) == ws[0] && Unpack32(h, p + 4) == ws[1] && Unpack32(h, p + 8) == ws[2]
    ensures Unpack32(h, p + 12) == ws[3]
    ensures Unpack32(h, p + 16) == ws[4] && Unpack32(h, p + 20) == ws[5] && Unpack32(h, p + 24) == ws[6]
    ensures Unpack32(h, q) == fs[0] && Unpack32(h, q + 4) == fs[1] && Unpack32(h, q + 8) == fs[2]
  {
    hide Unpack32, PackWords, Words32;
    WordIn(h, p, ws, 0);
    WordIn(h, p, ws, 1);
    WordIn(h, p, ws, 2);
    WordIn(h, p, ws, 3);
    WordIn(h, p, ws, 4);
    WordIn(h, p, ws, 5);
    WordIn(h, p, ws, 6);
    WordIn(h, q, fs, 0);
    WordIn(h, q, fs, 1);
    WordIn(h, q, fs, 2);
  }

  // ---------------------------------------------------------------- the image

  function Contents(files: seq<File>): (ss: seq<seq<byte>>)
    ensures |ss| == |files| && forall i :: 0 <= i < |ss| ==> ss[i] == files[i].content
  {
    seq(|files|, i requires 0 <= i < |files| => files[i].content)
  }

  /** Where the first file's data begins. */
  function DataStart(count: nat): nat {
    PAC_HEADER_SIZE + count * FILE_HEADER_SIZE
  }

  function OffsetOf(files: seq<File>, i: nat): nat
    requires i <= |files|
  {
    DataStart(|files|) + StartOf(Contents(files), i)
  }

  function PacSize(files: seq<File>): nat {
    DataStart(|files|) + |Flat(Contents(files))|
  }

  /** Every number fits its field: exactly when `struct.pack` does not raise. */
  predicate PacFits(c: Settings, files: seq<File>) {
    && (forall i :: 0 <= i < |files| ==> FileFits(files[i], OffsetOf(files, i)))
    && SettingsFit(c, PacSize(files), |files|)
  }

  function Headers(files: seq<File>): (ss: seq<seq<byte>>)
    requires forall i :: 0 <= i < |files| ==> FileFits(files[i], OffsetOf(files, i))
    ensures |ss| == |files| && forall i :: 0 <= i < |ss| ==> ss[i] == FileHeader(files[i], OffsetOf(files, i))
  {
    seq(|files|, i requires 0 <= i < |files| => FileHeader(files[i], OffsetOf(files, i)))
  }

  function Body(files: seq<File>): seq<byte>
    requires forall i :: 0 <= i < |files| ==> FileFits(files[i], OffsetOf(files, i))
  {
    Flat(Headers(files)) + Flat(Contents(files))
  }

  /** A checksum as format `H` stores it. */
  function CrcField(s: seq<byte>): (r: seq<byte>)
    ensures |r| == 2
  {
    [Crc16.LowByte(Crc16.Crc(0, s)), Crc16.HighByte(Crc16.Crc(0, s))]
  }

  function PacImage(c: Settings, files: seq<File>): seq<byte>
    requires PacFits(c, files)
  {
    var h := HeaderNoCrc(c, PacSize(files), |files|);
    h + CrcField(h) + CrcField(Body(files)) + Body(files)
  }

  lemma HeadersLength(files: seq<File>)
    requires forall i :: 0 <= i < |files| ==> FileFits(files[i], OffsetOf(files, i))
    ensures |Flat(Headers(files))| == |files| * FILE_HEADER_SIZE
  {
    hide FileHeader, OffsetOf, FileFits;
    var hs := Headers(files);
    StartOfUniform(hs, |hs|, FILE_HEADER_SIZE);
    assert hs[..|hs|] == hs;
  }

  /** The header's fields read back through the image, the stored size is the size, and the
      two checksums are those of the 2120 bytes before them and of everything after the header. */
  lemma PacHeaderIsTrue(c: Settings, files: seq<File>)
    requires PacFits(c, files)
    ensures var img := PacImage(c, files);
            && |img| == PacSize(files) >= PAC_HEADER_SIZE && HeaderHolds(img[..2120], c, |img|, |files|)
            && ((img[2121] as bv16) << 8) | (img[2120] as bv16) == Crc16.CrcBits(0, Crc16.MessageBits(img[..2120]))
            && ((img[2123] as bv16) << 8) | (img[2122] as bv16) == Crc16.CrcBits(0, Crc16.MessageBits(img[2124..]))
  {
    hide HeaderNoCrc, SettingsFit, HeaderHolds, CrcField, Contents, Headers, FileFits, Body;
    var h := HeaderNoCrc(c, PacSize(files), |files|);
    BodyLength(files);
    ReadHeader(c, PacSize(files), |files|);
    FourPieces(h, CrcField(h), CrcField(Body(files)), Body(files));
    CrcStored(PacImage(c, files), 2120, h);
    CrcStored(PacImage(c, files), 2122, Body(files));
  }

  /** A stored checksum, low byte first, is the bit-serial register started at 0. */
  lemma CrcStored(img: seq<byte>, p: nat, s: seq<byte>)
    requires p + 2 <= |img| && img[p..p + 2] == CrcField(s)
    ensures ((img[p + 1] as bv16) << 8) | (img[p] as bv16) == Crc16.CrcBits(0, Crc16.MessageBits(s))
  {
    hide Crc16.CrcBits, Crc16.MessageBits, Crc16.LowByte, Crc16.HighByte;
    assert img[p] == img[p..p + 2][0] && img[p + 1] == img[p..p + 2][1];
    CrcTables.JoinSplit(Crc16.Crc(0, s));
  }

  lemma BodyLength(files: seq<File>)
    requires forall i :: 0 <= i < |files| ==> FileFits(files[i], OffsetOf(files, i))
    ensures PAC_HEADER_SIZE + |Body(files)| == PacSize(files)
  {
    hide FileFits, Headers;
    HeadersLength(files);
  }

  lemma FourPieces(h: seq<byte>, x: seq<byte>, y: seq<byte>, body: seq<byte>)
    requires |h| == 2120 && |x| == |y| == 2
    ensures var img := h + x + y + body;
            && |img| == 2124 + |body|
            && img[..2120] == h && img[2120..2122] == x && img[2122..2124] == y && img[2124..] == body
  {
  }

  // ---------------------------------------------------------------- reading an image back

  function HeaderAt(i: nat): nat {
    PAC_HEADER_SIZE + i * FILE_HEADER_SIZE
  }

  /** A reader that trusts nothing but the image: the data of entry `i` through its header. */
  function ReadFile(img: seq<byte>, i: nat): (r: seq<byte>)
    requires HeaderAt(i) + FILE_HEADER_SIZE <= |img|
  {
    var size, offset := Unpack32(img, HeaderAt(i) + 1540), Unpack32(img, HeaderAt(i) + 1552);
    if offset + size <= |img| then img[offset..offset + size] else []
  }

  /** Header `i` sits at 2124 + 2580 i, records the file's extent, and reading through it
      yields exactly the file's data. */
  lemma ReadBack(c: Settings, files: seq<File>, i: nat)
    requires PacFits(c, files) && i < |files|
    ensures var img := PacImage(c, files);
            && HeaderAt(i) == 2124 + 2580 * i && HeaderAt(i) + 2580 <= |img|
            && img[HeaderAt(i)..HeaderAt(i) + 2580] == FileHeader(files[i], OffsetOf(files, i))
            && Unpack32(img, HeaderAt(i) + 1540) == |files[i].content|
            && Unpack32(img, HeaderAt(i) + 1552) == OffsetOf(files, i)
            && ReadFile(img, i) == files[i].content
  {
    hide PacImage, Unpack32, FileHeader, FileFits, SettingsFit, OffsetOf;
    var img, p, q := PacImage(c, files), HeaderAt(i), OffsetOf(files, i);
    PlacedInImage(c, files, i);
    ReadFileHeader(files[i], q);
    ReadThrough(img, p, FileHeader(files[i], q), 1540);
    ReadThrough(img, p, FileHeader(files[i], q), 1552);
  }

  lemma PlacedInImage(c: Settings, files: seq<File>, i: nat)
    requires PacFits(c, files) && i < |files|
    ensures var img, p, q := PacImage(c, files), HeaderAt(i), OffsetOf(files, i);
            && p + FILE_HEADER_SIZE <= |img| && img[p..p + FILE_HEADER_SIZE] == FileHeader(files[i], q)
            && q + |files[i].content| <= |img| && img[q..q + |files[i].content|] == files[i].content
  {
    hide HeaderNoCrc, SettingsFit, CrcField, FileHeader, FileFits, StartOf;
    var img := PacImage(c, files);
    var hs, cs := Headers(files), Contents(files);
    var front := img[..PAC_HEADER_SIZE];
    HeadersLength(files);
    PieceOfFlat(hs, i);
    StartOfUniform(hs, i, FILE_HEADER_SIZE);
    PieceOfFlat(cs, i);
    assert img == front + Flat(hs) + Flat(cs);
    SliceInMiddle(front, Flat(hs), Flat(cs), StartOf(hs, i), StartOf(hs, i) + FILE_HEADER_SIZE);
    SliceInTail(front + Flat(hs), Flat(cs), StartOf(cs, i), StartOf(cs, i) + |cs[i]|);
  }

  lemma SliceInMiddle(a: seq<byte>, b: seq<byte>, c: seq<byte>, i: nat, j: nat)
    requires i <= j <= |b|
    ensures (a + b + c)[|a| + i..|a| + j] == b[i..j]
  {
  }

  lemma SliceInTail(a: seq<byte>, b: seq<byte>, i: nat, j: nat)
    requires i <= j <= |b|
    ensures (a + b)[|a| + i..|a| + j] == b[i..j]
  {
  }

  lemma ReadThrough(img: seq<byte>, p: nat, h: seq<byte>, k: nat)
    requires p + |h| <= |img| && img[p..p + |h|] == h && k + 4 <= |h|
    ensures Unpack32(img, p + k) == Unpack32(h, k)
  {
    var w := img[p..p + |h|];
    assert img[p + k] == w[k] && img[p + k + 1] == w[k + 1] && img[p + k + 2] == w[k + 2] && img[p + k + 3] == w[k + 3];
  }

  /** The extents tile the tail: the first begins right after the headers, each begins where
      the one before ends, and the last ends at the end of the image. */
  lemma ExtentsTile(c: Settings, files: seq<File>)
    requires PacFits(c, files)
    ensures OffsetOf(files, 0) == 2124 + 2580 * |files|
    ensures forall i :: 0 <= i < |files| ==> OffsetOf(files, i + 1) == OffsetOf(files, i) + |files[i].content|
    ensures OffsetOf(files, |files|) == |PacImage(c, files)|
  {
    hide FileFits, SettingsFit, FileHeader, HeaderNoCrc, CrcField;
    var cs := Contents(files);
    assert cs[..0] == [] && cs[..|cs|] == cs;
    forall i | 0 <= i < |files|
      ensures OffsetOf(files, i + 1) == OffsetOf(files, i) + |files[i].content|
    {
      StartNext(cs, i);
    }
    HeadersLength(files);
  }

  // ---------------------------------------------------------------- the program

  datatype Result = Written(image: seq<byte>) | StructError

  /** `for d in pieces: crc = calc_crc16(crc, d)`: chunk by chunk is one pass over the whole. */
  method CrcOfPieces(start: bv16, pieces: seq<seq<byte>>) returns (crc: bv16)
    ensures crc == Crc16.Crc(start, Flat(pieces))
  {
    hide Crc16.Crc;
    crc := start;
    CrcTables.CrcOfNothing(start);
    for i := 0 to |pieces|
      invariant crc == Crc16.Crc(start, Flat(pieces[..i]))
    {
      Crc16.CrcConcat(start, Flat(pieces[..i]), pieces[i]);
      assert pieces[..i + 1][..i] == pieces[..i];
      crc := CrcTables.CalcCrc16(crc, pieces[i]);
    }
    assert pieces[..|pieces|] == pieces;
  }

  class PacConfig {
    var settings: Settings
    var files: seq<File>

    constructor (settings: Settings)
      ensures this.settings == settings && files == []
    {
      this.settings := settings;
      files := [];
    }

    /** The header loop of `pac_gen`; `ok` is false where `struct.pack` raises. */
    method PackFiles() returns (ok: bool, offset: nat, filesHeader: seq<seq<byte>>, filesData: seq<seq<byte>>)
      ensures ok <==> forall i :: 0 <= i < |files| ==> FileFits(files[i], OffsetOf(files, i))
      ensures ok ==> offset == PacSize(files) && filesHeader == Headers(files) && filesData == Contents(files)
    {
      hide FileFits, FileHeader, StartOf;
      ghost var cs := Contents(files);
      filesHeader, filesData := [], [];
      offset := PAC_HEADER_SIZE + |files| * FILE_HEADER_SIZE;
      StartsAtZero(cs);
      for i := 0 to |files|
        invariant offset == OffsetOf(files, i) && |filesHeader| == i && filesData == cs[..i]
        invariant forall j :: 0 <= j < i ==> FileFits(files[j], OffsetOf(files, j))
        invariant forall j :: 0 <= j < i ==> filesHeader[j] == FileHeader(files[j], OffsetOf(files, j))
      {
        var fc := files[i];
        if !FileFits(fc, offset) {
          return false, offset, filesHeader, filesData;
        }
        filesHeader := filesHeader + [FileHeader(fc, offset)];
        filesData := filesData + [fc.content];
        StartNext(cs, i);
        offset := offset + |fc.content|;
      }
      StartAtEnd(cs);
      return true, offset, filesHeader, filesData;
    }

    /** `pac_gen`. The XML entry is appended to the configuration's own list, and stays there. */
    method PacGen(xml: File) returns (r: Result)
      modifies this
      ensures settings == old(settings) && files == old(files) + [xml]
      ensures r == if PacFits(settings, files) then Written(PacImage(settings, files)) else StructError
    {
      hide FileFits, SettingsFit, Headers, Contents, HeaderNoCrc, Crc16.Crc, Crc16.LowByte, Crc16.HighByte, PacSize;
      files := files + [xml];
      var ok, pacSize, filesHeader, filesData := PackFiles();
      if !ok || !SettingsFit(settings, pacSize, |files|) {
        return StructError;
      }
      var headerNoCrc := HeaderNoCrc(settings, pacSize, |files|);
      var crc1 := CrcTables.CalcCrc16(0, headerNoCrc);
      var crc2 := CrcOfPieces(0, filesHeader);
      Crc16.CrcConcat(0, Flat(filesHeader), Flat(filesData));
      crc2 := CrcOfPieces(crc2, filesData);
      var header := headerNoCrc + [Crc16.LowByte(crc1), Crc16.HighByte(crc1)]
                    + [Crc16.LowByte(crc2), Crc16.HighByte(crc2)];
      r := Written(header + Flat(filesHeader) + Flat(filesData));
      assert header + Flat(filesHeader) + Flat(filesData) == header + (Flat(filesHeader) + Flat(filesData));
    }
  }

  lemma StartsAtZero(ss: seq<seq<byte>>)
    ensures StartOf(ss, 0) == 0
  {
  }

  lemma StartAtEnd(ss: seq<seq<byte>>)
    ensures StartOf(ss, |ss|) == |Flat(ss)|
  {
    assert ss[..|ss|] == ss;
  }

  predicate AllFit32(ns: seq<int>) {
    forall k :: 0 <= k < |ns| ==> 0 <= ns[k] < 0x1_0000_0000
  }

  /** A header can be written exactly when its numbers lie between 0 and 2^32 - 1. */
  lemma FieldsFitIff(f: File, offset: int)
    ensures FileFits(f, offset) <==>
            AllFit32([|f.content|, f.flag, f.defaultCheck, offset, f.canOmit, f.address])
  {
    var ns := [|f.content|, f.flag, f.defaultCheck, offset, f.canOmit, f.address];
    assert ns[0] == |f.content| && ns[1] == f.flag && ns[2] == f.defaultCheck && ns[3] == offset;
    assert ns[4] == f.canOmit && ns[5] == f.address;
  }

  lemma SettingsFitIff(c: Settings, pacSize: int, count: int)
    ensures var ns := [pacSize, count, c.mode, c.flashType, c.nandStrategy, c.isNvBackup, c.nandPageType,
                       c.omaDmProductFlag, c.isOmaDm, c.isPreload];
            SettingsFit(c, pacSize, count) <==> AllFit32(ns)
  {
    var ns := [pacSize, count, c.mode, c.flashType, c.nandStrategy, c.isNvBackup, c.nandPageType,
               c.omaDmProductFlag, c.isOmaDm, c.isPreload];
    assert ns[0] == pacSize && ns[1] == count && ns[2] == c.mode && ns[3] == c.flashType && ns[4] == c.nandStrategy;
    assert ns[5] == c.isNvBackup && ns[6] == c.nandPageType && ns[7] == c.omaDmProductFlag;
    assert ns[8] == c.isOmaDm && ns[9] == c.isPreload;
  }
}
