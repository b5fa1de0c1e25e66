/** Drawing a line of text (nwy_drv_lcd_st7735.c): glyph bits from the font files expanded
    into pixels, glyphs blitted side by side into the display buffer, the buffer sent to a
    window of the panel. The font files are functions from an offset to the bytes read there. */
module Lcd {
  import opened Bytes
  import opened Layout
  import opened Arith

  const WIDTH: nat := 128
  const HEIGHT: nat := 128

  /** `GetFontSize`: zero for sizes it does not know. */
  function AscWidth(fontSize: nat): nat {
    if fontSize == 12 then 6 else if fontSize == 16 then 8 else 0
  }

  function GbkWidth(fontSize: nat): nat {
    if fontSize == 12 then 12 else if fontSize == 16 then 16 else 0
  }

  function FontHeight(fontSize: nat): nat {
    if fontSize == 12 then 12 else if fontSize == 16 then 16 else 0
  }

  /** WORD_SIZE of the two fonts. */
  function AscBytesPerGlyph(fontSize: nat): nat {
    if fontSize == 12 then 12 else if fontSize == 16 then 16 else 0
  }

  function GbkBytesPerGlyph(fontSize: nat): nat {
    if fontSize == 12 then 24 else if fontSize == 16 then 32 else 0
  }

  // ---------------------------------------------------------------- the raster specification

  datatype Glyph = One(b: byte) | Two(b0: byte, b1: byte)

  /** How many pixels wide a character is, and how many font bytes make one of its rows. */
  function Width(fontSize: nat, g: Glyph): nat {
    if g.One? then AscWidth(fontSize) else GbkWidth(fontSize)
  }

  function Stride(g: Glyph): nat {
    if g.One? then 1 else 2
  }

  type Pixels = seq<bv16>

  datatype Style = Style(fontSize: nat, text: bv16, back: bv16)

  /** The font files. */
  datatype Fonts = Fonts(asc: nat -> seq<byte>, gbk: int -> seq<byte>)

  /** The bytes `fread` leaves in the zeroed glyph buffer. */
  function GlyphBytes(fonts: Fonts, fontSize: nat, g: Glyph): (s: seq<byte>)
    ensures |s| == if g.One? then AscBytesPerGlyph(fontSize) else GbkBytesPerGlyph(fontSize)
  {
    match g
    case One(b) => Fixed(fonts.asc(Val(b) * AscBytesPerGlyph(fontSize)), AscBytesPerGlyph(fontSize))
    case Two(b0, b1) =>
      var qh, wh := Val(b0) - 0xA0, Val(b1) - 0xA0;
      Fixed(fonts.gbk((94 * (qh - 1) + (wh - 1)) * GbkBytesPerGlyph(fontSize)), GbkBytesPerGlyph(fontSize))
  }

  /** Bit `i` of a font byte, leftmost pixel first. */
  function Key(i: nat): byte {
    match i
    case 0 => 0x80
    case 1 => 0x40
    case 2 => 0x20
    case 3 => 0x10
    case 4 => 0x08
    case 5 => 0x04
    case 6 => 0x02
    case _ => 0x01
  }

  predicate Lit(b: byte, i: nat) {
    b & Key(i) != 0
  }

  /** The bytes of row `r` when every row takes `stride` of them. */
  function Row(s: seq<byte>, stride: nat, r: nat): (row: seq<byte>)
    requires (r + 1) * stride <= |s|
    ensures |row| == stride
  {
    assert (r + 1) * stride == r * stride + stride;
    s[r * stride..(r + 1) * stride]
  }

  /** The colour of pixel `c` of a row. */
  function RowPixel(row: seq<byte>, c: nat, style: Style): bv16
    requires c < 8 * |row|
  {
    if Lit(row[c / 8], c % 8) then style.text else style.back
  }

  function GlyphPixel(fonts: Fonts, style: Style, g: Glyph, r: nat, x: nat): bv16
    requires r < FontHeight(style.fontSize) && x < Width(style.fontSize, g)
  {
    RowPixel(Row(GlyphBytes(fonts, style.fontSize, g), Stride(g), r), x, style)
  }

  /** Every byte above 0x80 starts a two-byte character. */
  predicate WellFormed(str: seq<byte>) {
    str != [] ==> if str[0] > 0x80 then |str| >= 2 && WellFormed(str[2..]) else WellFormed(str[1..])
  }

  function Glyphs(str: seq<byte>): seq<Glyph>
    requires WellFormed(str)
  {
    if str == [] then []
    else if str[0] > 0x80 then [Two(str[0], str[1])] + Glyphs(str[2..])
    else [One(str[0])] + Glyphs(str[1..])
  }

  function LineWidth(fontSize: nat, gs: seq<Glyph>): nat {
    if gs == [] then 0 else Width(fontSize, gs[0]) + LineWidth(fontSize, gs[1..])
  }

  /** The colour of pixel (r, c) of the whole line: glyphs side by side from column 0. */
  function LinePixel(fonts: Fonts, style: Style, gs: seq<Glyph>, r: nat, c: nat): bv16
    requires r < FontHeight(style.fontSize) && c < LineWidth(style.fontSize, gs)
  {
    var w := Width(style.fontSize, gs[0]);
    if c < w then GlyphPixel(fonts, style, gs[0], r, c) else LinePixel(fonts, style, gs[1..], r, c - w)
  }

  /** The glyph columns of a well-formed string tile exactly the `line_len` the code computes. */
  lemma {:induction false} ColumnsTile(fontSize: nat, str: seq<byte>)
    requires WellFormed(str)
    ensures LineWidth(fontSize, Glyphs(str)) == |str| * AscWidth(fontSize)
    decreases |str|
  {
    if str != [] {
      if str[0] > 0x80 {
        ColumnsTile(fontSize, str[2..]);
        assert Glyphs(str)[1..] == Glyphs(str[2..]);
      } else {
        ColumnsTile(fontSize, str[1..]);
        assert Glyphs(str)[1..] == Glyphs(str[1..]);
      }
    }
  }

  // ---------------------------------------------------------------- expanding one glyph

  /** `dat << i`, in a byte. */
  function ShiftedLeft(dat: byte, i: nat): byte
    decreases i
  {
    if i == 0 then dat else ShiftedLeft(dat << 1, i - 1)
  }

  /** The two ways the source tests a font bit agree. */
  lemma {:induction false} BitTestsAgree(dat: byte, i: nat)
    requires i < 8
    ensures ShiftedLeft(dat, i) & 0x80 != 0 <==> Lit(dat, i)
    decreases i
  {
    if i > 0 {
      hide Lit;
      KeyStep(dat, i);
      BitTestsAgree(dat << 1, i - 1);
    }
  }

  lemma KeyStep(dat: byte, i: nat)
    requires 0 < i < 8
    ensures Lit(dat, i) == Lit(dat << 1, i - 1)
  {
  }

  function Index(r: nat, c: nat, width: nat): nat {
    r * width + c
  }

  lemma IndexBound(r: nat, c: nat, rows: nat, width: nat)
    requires r < rows && c < width
    ensures Index(r, c, width) < rows * width
    ensures Index(r, c, width) + 1 == if c + 1 < width then Index(r, c + 1, width) else Index(r + 1, 0, width)
  {
    Monotone(r + 1, rows, width);
  }

  /** The innermost loop: up to eight pixels of one font byte, cut off at the glyph's width. */
  method ExpandByte(dat: byte, j: nat, w: nat, style: Style, shifting: bool, tmp: array<bv16>, n: nat) returns (n': nat)
    requires n + Max(0, Min(8, w - 8 * j)) <= tmp.Length
    modifies tmp
    ensures n' == n + Max(0, Min(8, w - 8 * j))
    ensures forall i :: n <= i < n' ==> tmp[i] == if Lit(dat, i - n) then style.text else style.back
    ensures forall i :: 0 <= i < n ==> tmp[i] == old(tmp[i])
  {
    hide Lit, ShiftedLeft;
    n' := n;
    var i := 0;
    while i < 8
      invariant 0 <= i <= Max(0, Min(8, w - 8 * j)) && n' == n + i
      invariant forall k :: n <= k < n' ==> tmp[k] == if Lit(dat, k - n) then style.text else style.back
      invariant forall k :: 0 <= k < n ==> tmp[k] == old(tmp[k])
    {
      if j * 8 + i >= w {
        break;
      }
      BitTestsAgree(dat, i);
      var flag := if shifting then ShiftedLeft(dat, i) & 0x80 != 0 else Lit(dat, i);
      tmp[n'] := if flag then style.text else style.back;
      n' := n' + 1;
      i := i + 1;
    }
  }

  /** One row of the glyph: its `stride` bytes, the last one cut off at the width. */
  method ExpandRow(row: seq<byte>, w: nat, style: Style, shifting: bool, tmp: array<bv16>, n: nat) returns (n': nat)
    requires 8 * |row| >= w && n + w <= tmp.Length
    modifies tmp
    ensures n' == n + w
    ensures forall c :: 0 <= c < w ==> tmp[n + c] == RowPixel(row, c, style)
    ensures forall i :: 0 <= i < n ==> tmp[i] == old(tmp[i])
  {
    hide Lit;
    n' := n;
    for j := 0 to |row|
      invariant n' == n + Min(8 * j, w)
      invariant forall c :: 0 <= c < Min(8 * j, w) ==> tmp[n + c] == RowPixel(row, c, style)
      invariant forall i :: 0 <= i < n ==> tmp[i] == old(tmp[i])
    {
      ghost var before, at := tmp[..], n';
      n' := ExpandByte(row[j], j, w, style, shifting, tmp, n');
      forall c | 0 <= c < Min(8 * (j + 1), w)
        ensures tmp[n + c] == RowPixel(row, c, style)
      {
        if c < Min(8 * j, w) {
          assert tmp[n + c] == before[n + c];
        } else {
          assert c / 8 == j && c % 8 == n + c - at;
        }
      }
    }
  }

  /** The pixel loops of `GetGbkOneBuf` (masking) and `GetOneCharBuf` (shifting). */
  method ExpandGlyph(s: seq<byte>, stride: nat, w: nat, h: nat, style: Style, shifting: bool, tmp: array<bv16>)
    requires w <= 8 * stride && |s| == h * stride && h * w <= tmp.Length
    modifies tmp
    ensures Expanded(tmp[..], s, stride, w, h, style)
  {
    hide Index, Row, RowPixel, Expanded;
    var n := 0;
    NothingExpanded(tmp[..], s, stride, w, style);
    for k := 0 to h
      invariant n == k * w && Expanded(tmp[..], s, stride, w, k, style)
    {
      ghost var before := tmp[..];
      Monotone(k + 1, h, stride);
      RowFits(k, h, w);
      n := ExpandRow(Row(s, stride, k), w, style, shifting, tmp, n);
      ExpandedRow(before, tmp[..], s, stride, w, k, style);
    }
  }

  /** The pixels of the first `k` rows are in place. */
  ghost predicate Expanded(tmp: Pixels, s: seq<byte>, stride: nat, w: nat, k: nat, style: Style)
    requires w <= 8 * stride
  {
    forall r, c :: 0 <= r < k && 0 <= c < w ==>
      Index(r, c, w) < |tmp| && (r + 1) * stride <= |s| && tmp[Index(r, c, w)] == RowPixel(Row(s, stride, r), c, style)
  }

  lemma NothingExpanded(tmp: Pixels, s: seq<byte>, stride: nat, w: nat, style: Style)
    requires w <= 8 * stride
    ensures Expanded(tmp, s, stride, w, 0, style)
  {
  }

  lemma ExpandedRow(before: Pixels, now: Pixels, s: seq<byte>, stride: nat, w: nat, k: nat, style: Style)
    requires w <= 8 * stride && (k + 1) * stride <= |s| && k * w + w <= |before| == |now|
    requires Expanded(before, s, stride, w, k, style)
    requires forall i :: 0 <= i < k * w ==> now[i] == before[i]
    requires forall c :: 0 <= c < w ==> now[k * w + c] == RowPixel(Row(s, stride, k), c, style)
    ensures Expanded(now, s, stride, w, k + 1, style)
  {
    hide Index, Row, RowPixel;
    forall r, c | 0 <= r < k + 1 && 0 <= c < w
      ensures Index(r, c, w) < |now| && (r + 1) * stride <= |s|
      ensures now[Index(r, c, w)] == RowPixel(Row(s, stride, r), c, style)
    {
      if r < k {
        IndexBound(r, c, k, w);
        assert before[Index(r, c, w)] == RowPixel(Row(s, stride, r), c, style);
      } else {
        IndexIs(k, c, w);
      }
    }
  }

  lemma IndexIs(r: nat, c: nat, w: nat)
    ensures Index(r, c, w) == r * w + c
  {
  }

  /** `GetGbkOneBuf` and `GetOneCharBuf`: nothing is drawn for an unknown font size. */
  method GetGlyphBuf(fonts: Fonts, style: Style, g: Glyph, tmp: array<bv16>)
    requires tmp.Length == 256
    modifies tmp
    ensures HoldsGlyph(fonts, style, g, tmp[..])
  {
    hide Index, RowPixel, Row;
    var fontSize := style.fontSize;
    if fontSize != 12 && fontSize != 16 {
      return;
    }
    var buf := GlyphBytes(fonts, fontSize, g);
    ExpandGlyph(buf, Stride(g), Width(fontSize, g), FontHeight(fontSize), style, g.One?, tmp);
  }

  // ---------------------------------------------------------------- blitting a line

  /** Places [to, to + w) hold the pixels from `from` on; the other places are as they were. */
  ghost predicate RowCopied(tmp: Pixels, from: nat, w: nat, before: Pixels, now: Pixels, to: nat)
    requires |before| == |now|
  {
    && from + w <= |tmp| && to + w <= |now|
    && (forall k :: to <= k < to + w ==> now[k] == tmp[from + (k - to)])
    && (forall k :: 0 <= k < |now| && (k < to || to + w <= k) ==> now[k] == before[k])
  }

  method BlitRow(tmp: array<bv16>, from: nat, w: nat, display: array<bv16>, to: nat)
    requires tmp != display && from + w <= tmp.Length && to + w <= display.Length
    modifies display
    ensures RowCopied(tmp[..], from, w, old(display[..]), display[..], to)
  {
    for j := 0 to w
      invariant forall k :: to <= k < to + j ==> display[k] == tmp[from + (k - to)]
      invariant forall k :: 0 <= k < display.Length && (k < to || to + j <= k) ==> display[k] == old(display[k])
    {
      display[to + j] := tmp[from + j];
    }
  }

  /** Column range [at, at + w) of rows below `h` is the glyph ... */
  ghost predicate GlyphIn(tmp: Pixels, w: nat, now: Pixels, lineLen: nat, at: nat, h: nat) {
    forall r, c :: 0 <= r < h && 0 <= c < w ==>
      && Index(r, c, w) < |tmp| && Index(r, at + c, lineLen) < |now|
      && now[Index(r, at + c, lineLen)] == tmp[Index(r, c, w)]
  }

  /** ... and the rest of the buffer, beside and behind those rows, is as it was. */
  ghost predicate KeptBeside(w: nat, before: Pixels, now: Pixels, lineLen: nat, at: nat, h: nat)
    requires |before| == |now|
  {
    forall r, c :: 0 <= r < h && 0 <= c < lineLen && (c < at || at + w <= c) ==>
      Index(r, c, lineLen) < |now| && now[Index(r, c, lineLen)] == before[Index(r, c, lineLen)]
  }

  ghost predicate KeptFrom(before: Pixels, now: Pixels, from: nat)
    requires |before| == |now|
  {
    forall k :: from <= k < |now| ==> now[k] == before[k]
  }

  ghost predicate Blitted(tmp: Pixels, w: nat, before: Pixels, now: Pixels, lineLen: nat, at: nat, h: nat)
    requires |before| == |now|
  {
    && GlyphIn(tmp, w, now, lineLen, at, h) && KeptBeside(w, before, now, lineLen, at, h)
    && KeptFrom(before, now, h * lineLen)
  }

  method Blit(tmp: array<bv16>, w: nat, h: nat, display: array<bv16>, lineLen: nat, at: nat)
    requires tmp != display && at + w <= lineLen && h * lineLen <= display.Length && h * w <= tmp.Length
    modifies display
    ensures Blitted(tmp[..], w, old(display[..]), display[..], lineLen, at, h)
  {
    hide Index, Blitted, RowCopied;
    ghost var start := display[..];
    NothingBlitted(tmp[..], w, start, lineLen, at);
    for i := 0 to h
      invariant Blitted(tmp[..], w, start, display[..], lineLen, at, i)
    {
      ghost var before := display[..];
      RowFits(i, h, lineLen);
      RowFits(i, h, w);
      BlitRow(tmp, i * w, w, display, i * lineLen + at);
      BlittedRow(tmp[..], w, start, before, display[..], lineLen, at, i);
    }
  }

  lemma RowFits(i: nat, h: nat, w: nat)
    requires i < h
    ensures i * w + w == (i + 1) * w <= h * w
  {
    Monotone(i + 1, h, w);
  }

  lemma NothingBlitted(tmp: Pixels, w: nat, start: Pixels, lineLen: nat, at: nat)
    ensures Blitted(tmp, w, start, start, lineLen, at, 0)
  {
  }

  /** Row `i` has been copied over a buffer that held the rows before it. */
  ghost predicate NextRow(tmp: Pixels, w: nat, start: Pixels, before: Pixels, now: Pixels, lineLen: nat, at: nat,
                          i: nat)
  {
    && at + w <= lineLen && (i + 1) * lineLen <= |start| == |before| == |now| && (i + 1) * w <= |tmp|
    && i * lineLen + lineLen == (i + 1) * lineLen && i * w + w == (i + 1) * w
    && Blitted(tmp, w, start, before, lineLen, at, i)
    && RowCopied(tmp, i * w, w, before, now, i * lineLen + at)
  }

  lemma BlittedPixel(tmp: Pixels, w: nat, start: Pixels, before: Pixels, now: Pixels, lineLen: nat, at: nat, i: nat,
                     r: nat, c: nat)
    requires NextRow(tmp, w, start, before, now, lineLen, at, i) && r < i + 1 && c < w
    ensures Index(r, c, w) < |tmp| && Index(r, at + c, lineLen) < |now|
    ensures now[Index(r, at + c, lineLen)] == tmp[Index(r, c, w)]
  {
    hide Index;
    if r < i {
      IndexBound(r, at + c, i, lineLen);
      assert before[Index(r, at + c, lineLen)] == tmp[Index(r, c, w)];
    } else {
      IndexIs(i, at + c, lineLen);
      IndexIs(i, c, w);
    }
  }

  lemma OtherPixel(tmp: Pixels, w: nat, start: Pixels, before: Pixels, now: Pixels, lineLen: nat, at: nat, i: nat,
                   r: nat, c: nat)
    requires NextRow(tmp, w, start, before, now, lineLen, at, i) && r < i + 1 && c < lineLen && (c < at || at + w <= c)
    ensures Index(r, c, lineLen) < |now| && now[Index(r, c, lineLen)] == start[Index(r, c, lineLen)]
  {
    hide Index;
    if r < i {
      IndexBound(r, c, i, lineLen);
      assert before[Index(r, c, lineLen)] == start[Index(r, c, lineLen)];
    } else {
      IndexIs(i, c, lineLen);
    }
  }

  lemma GlyphRows(tmp: Pixels, w: nat, start: Pixels, before: Pixels, now: Pixels, lineLen: nat, at: nat, i: nat)
    requires NextRow(tmp, w, start, before, now, lineLen, at, i)
    ensures GlyphIn(tmp, w, now, lineLen, at, i + 1)
  {
    hide Index, NextRow;
    forall r, c | 0 <= r < i + 1 && 0 <= c < w
      ensures Index(r, c, w) < |tmp| && Index(r, at + c, lineLen) < |now|
    ensures now[Index(r, at + c, lineLen)] == tmp[Index(r, c, w)]
    {
      BlittedPixel(tmp, w, start, before, now, lineLen, at, i, r, c);
    }
  }

  lemma OtherRows(tmp: Pixels, w: nat, start: Pixels, before: Pixels, now: Pixels, lineLen: nat, at: nat, i: nat)
    requires |start| == |now| && NextRow(tmp, w, start, before, now, lineLen, at, i)
    ensures KeptBeside(w, start, now, lineLen, at, i + 1)
  {
    hide Index, NextRow;
    forall r, c | 0 <= r < i + 1 && 0 <= c < lineLen && (c < at || at + w <= c)
      ensures Index(r, c, lineLen) < |now| && now[Index(r, c, lineLen)] == start[Index(r, c, lineLen)]
    {
      OtherPixel(tmp, w, start, before, now, lineLen, at, i, r, c);
    }
  }

  lemma BlittedRow(tmp: Pixels, w: nat, start: Pixels, before: Pixels, now: Pixels, lineLen: nat, at: nat, i: nat)
    requires NextRow(tmp, w, start, before, now, lineLen, at, i)
    ensures |start| == |now| && Blitted(tmp, w, start, now, lineLen, at, i + 1)
  {
    hide GlyphIn, KeptBeside, Index;
    GlyphRows(tmp, w, start, before, now, lineLen, at, i);
    OtherRows(tmp, w, start, before, now, lineLen, at, i);
  }

  /** Columns below `x` of the line hold their pixels. */
  ghost predicate Drawn(fonts: Fonts, style: Style, gs: seq<Glyph>, display: Pixels, x: nat)
    requires x <= LineWidth(style.fontSize, gs)
  {
    var w := LineWidth(style.fontSize, gs);
    forall r, c :: 0 <= r < FontHeight(style.fontSize) && 0 <= c < x ==>
      Index(r, c, w) < |display| && display[Index(r, c, w)] == LinePixel(fonts, style, gs, r, c)
  }

  /** `rest` is what remains of the line from column `x` on. */
  ghost predicate Remaining(fonts: Fonts, style: Style, gs: seq<Glyph>, x: nat, rest: seq<Glyph>) {
    && x + LineWidth(style.fontSize, rest) == LineWidth(style.fontSize, gs)
    && forall r, c :: 0 <= r < FontHeight(style.fontSize) && 0 <= c < LineWidth(style.fontSize, rest) ==>
         LinePixel(fonts, style, gs, r, x + c) == LinePixel(fonts, style, rest, r, c)
  }

  /** The scratch buffer holds the pixels of `g`. */
  ghost predicate HoldsGlyph(fonts: Fonts, style: Style, g: Glyph, tmp: Pixels) {
    var w := Width(style.fontSize, g);
    forall r, c :: 0 <= r < FontHeight(style.fontSize) && 0 <= c < w ==>
      Index(r, c, w) < |tmp| && tmp[Index(r, c, w)] == GlyphPixel(fonts, style, g, r, c)
  }

  /** A glyph of the line was copied from the scratch buffer to its columns, which begin at `x`. */
  ghost predicate GlyphBlitted(style: Style, gs: seq<Glyph>, x: nat, g: Glyph, tmp: Pixels, before: Pixels, now: Pixels)
  {
    var w, h := Width(style.fontSize, g), FontHeight(style.fontSize);
    var lineLen := LineWidth(style.fontSize, gs);
    && h * lineLen <= |before| == |now| && h * w <= |tmp| && x + w <= lineLen
    && Blitted(tmp, w, before, now, lineLen, x, h)
  }

  /** Blitting the next glyph extends what is drawn. */
  lemma DrawNext(fonts: Fonts, style: Style, gs: seq<Glyph>, x: nat, rest: seq<Glyph>,
                 tmp: Pixels, before: Pixels, now: Pixels)
    requires Remaining(fonts, style, gs, x, rest) && rest != []
    requires Drawn(fonts, style, gs, before, x) && HoldsGlyph(fonts, style, rest[0], tmp)
    requires GlyphBlitted(style, gs, x, rest[0], tmp, before, now)
    ensures var next := x + Width(style.fontSize, rest[0]);
            && next <= LineWidth(style.fontSize, gs) && Drawn(fonts, style, gs, now, next)
            && Remaining(fonts, style, gs, next, rest[1..])
  {
    hide Index, GlyphPixel;
    var w, h := Width(style.fontSize, rest[0]), FontHeight(style.fontSize);
    var lineLen := LineWidth(style.fontSize, gs);
    forall r, c | 0 <= r < h && 0 <= c < x + w
      ensures Index(r, c, lineLen) < |now| && now[Index(r, c, lineLen)] == LinePixel(fonts, style, gs, r, c)
    {
      if c >= x {
        var d := c - x;
        assert LinePixel(fonts, style, gs, r, x + d) == LinePixel(fonts, style, rest, r, d);
        assert now[Index(r, x + d, lineLen)] == tmp[Index(r, d, w)];
      }
    }
    RemainingNext(fonts, style, gs, x, rest);
  }

  lemma RemainingNext(fonts: Fonts, style: Style, gs: seq<Glyph>, x: nat, rest: seq<Glyph>)
    requires Remaining(fonts, style, gs, x, rest) && rest != []
    ensures Remaining(fonts, style, gs, x + Width(style.fontSize, rest[0]), rest[1..])
  {
    hide GlyphPixel;
    var w := Width(style.fontSize, rest[0]);
    forall r, c | 0 <= r < FontHeight(style.fontSize) && 0 <= c < LineWidth(style.fontSize, rest[1..])
      ensures LinePixel(fonts, style, gs, r, x + w + c) == LinePixel(fonts, style, rest[1..], r, c)
    {
      assert LinePixel(fonts, style, gs, r, x + (w + c)) == LinePixel(fonts, style, rest, r, w + c);
    }
  }

  // ---------------------------------------------------------------- every pixel, from the font files

  /** The byte at place `k` of what was read into the zeroed glyph buffer. */
  function ReadByte(file: seq<byte>, k: nat): byte {
    if k < |file| then file[k] else 0
  }

  /** Whether the font marks pixel (r, c) of a character. A one-byte character takes a byte per row,
      a two-byte one two; the second kind is found by its section and position, 94 to a section. */
  predicate Marked(fonts: Fonts, fontSize: nat, g: Glyph, r: nat, c: nat) {
    match g
    case One(b) =>
      var file := fonts.asc((b as int) * if fontSize == 12 then 12 else 16);
      BitSet(ReadByte(file, r), 7 - c % 8)
    case Two(b0, b1) =>
      var number := 94 * (b0 as int - 0xA1) + (b1 as int - 0xA1);
      var file := fonts.gbk(number * if fontSize == 12 then 24 else 32);
      BitSet(ReadByte(file, 2 * r + c / 8), 7 - c % 8)
  }

  /** A known font size, and a pixel of one of its characters. */
  predicate PixelOf(fontSize: nat, g: Glyph, r: nat, c: nat) {
    || (fontSize == 12 && r < 12 && c < if g.One? then 6 else 12)
    || (fontSize == 16 && r < 16 && c < if g.One? then 8 else 16)
  }

  lemma LitShifts(b: byte, k: nat)
    requires k < 8
    ensures k == 0 ==> Lit(b, 7) == (b & 1 == 1)
    ensures k > 0 ==> Lit(b, 7 - k) == Lit(b >> 1, 7 - (k - 1))
  {
  }

  lemma {:induction false} LitIsBitSet(b: byte, k: nat)
    requires k < 8
    ensures Lit(b, 7 - k) == BitSet(b, k)
    decreases k
  {
    hide Lit;
    LitShifts(b, k);
    if k > 0 {
      LitIsBitSet(b >> 1, k - 1);
    }
  }

  lemma GlyphByte(fonts: Fonts, fontSize: nat, g: Glyph, k: nat)
    requires k < |GlyphBytes(fonts, fontSize, g)| && (fontSize == 12 || fontSize == 16)
    ensures GlyphBytes(fonts, fontSize, g)[k] ==
            match g
            case One(b) => ReadByte(fonts.asc((b as int) * if fontSize == 12 then 12 else 16), k)
            case Two(b0, b1) =>
              ReadByte(fonts.gbk((94 * (b0 as int - 0xA1) + (b1 as int - 0xA1)) * if fontSize == 12 then 24 else 32), k)
  {
    hide Fixed;
    var size := if g.One? then AscBytesPerGlyph(fontSize) else GbkBytesPerGlyph(fontSize);
    match g
    case One(b) => FixedBytes(fonts.asc(Val(b) * size), size, k);
    case Two(b0, b1) =>
      FixedBytes(fonts.gbk((94 * (Val(b0) - 0xA0 - 1) + (Val(b1) - 0xA0 - 1)) * size), size, k);
  }

  lemma GlyphPixelIs(fonts: Fonts, style: Style, g: Glyph, r: nat, c: nat)
    requires PixelOf(style.fontSize, g, r, c)
    ensures r < FontHeight(style.fontSize) && c < Width(style.fontSize, g)
    ensures GlyphPixel(fonts, style, g, r, c) ==
            if Marked(fonts, style.fontSize, g, r, c) then style.text else style.back
  {
    hide GlyphBytes, Lit, BitSet, Row, ReadByte;
    var s, k := GlyphBytes(fonts, style.fontSize, g), if g.One? then r else 2 * r + c / 8;
    RowByte(style.fontSize, g, s, r, c);
    GlyphByte(fonts, style.fontSize, g, k);
    LitIsBitSet(s[k], 7 - c % 8);
  }

  lemma RowByte(fontSize: nat, g: Glyph, s: seq<byte>, r: nat, c: nat)
    requires PixelOf(fontSize, g, r, c)
    requires |s| == if g.One? then AscBytesPerGlyph(fontSize) else GbkBytesPerGlyph(fontSize)
    ensures var k := if g.One? then r else 2 * r + c / 8;
            && k < |s| && (r + 1) * Stride(g) <= |s| && c / 8 < Stride(g) && Row(s, Stride(g), r)[c / 8] == s[k]
  {
  }

  /** A character of the string begins at byte `p`. */
  predicate StartsAt(str: seq<byte>, p: nat)
    requires WellFormed(str)
  {
    && p < |str|
    && (p == 0 || if str[0] > 0x80 then p >= 2 && StartsAt(str[2..], p - 2) else StartsAt(str[1..], p - 1))
  }

  /** Which strings are well-formed, and where their characters begin. */
  lemma WellFormedOnce(b: byte, c: byte, str: seq<byte>)
    ensures b <= 0x80 ==> WellFormed([b] + str) == WellFormed(str)
    ensures b > 0x80 ==> !WellFormed([b]) && WellFormed([b, c] + str) == WellFormed(str)
  {
    assert ([b] + str)[1..] == str && ([b, c] + str)[2..] == str;
  }

  lemma {:induction false} StartsFollow(str: seq<byte>, p: nat)
    requires WellFormed(str) && StartsAt(str, p)
    ensures var next := p + if str[p] > 0x80 then 2 else 1;
            next <= |str| && (next < |str| ==> StartsAt(str, next))
    decreases |str|
  {
    var n := if str[0] > 0x80 then 2 else 1;
    if p > 0 {
      StartsFollow(str[n..], p - n);
    }
  }

  function CharAt(str: seq<byte>, p: nat): Glyph
    requires p < |str|
  {
    if str[p] > 0x80 && p + 1 < |str| then Two(str[p], str[p + 1]) else One(str[p])
  }

  /** The character that begins at byte `p` begins at column `p` times the width of one byte. */
  lemma {:induction false} LinePixelAt(fonts: Fonts, style: Style, str: seq<byte>, p: nat, r: nat, c: nat)
    requires WellFormed(str) && p < |str| && StartsAt(str, p)
    requires r < FontHeight(style.fontSize) && c < Width(style.fontSize, CharAt(str, p))
    ensures Column(style.fontSize, p) + c < LineWidth(style.fontSize, Glyphs(str))
    ensures LinePixel(fonts, style, Glyphs(str), r, Column(style.fontSize, p) + c) ==
            GlyphPixel(fonts, style, CharAt(str, p), r, c)
    decreases |str|
  {
    hide *;
    var gs, n := Glyphs(str), CharSize(str);
    FirstChar(str);
    CharWidth(style.fontSize, str);
    LineFirst(fonts, style, gs, r, Column(style.fontSize, p) + c);
    if p > 0 {
      NextStart(str, p);
      NextColumn(style.fontSize, p, n);
      LinePixelAt(fonts, style, str[n..], p - n, r, c);
    } else {
      FirstColumn(style.fontSize);
    }
  }

  /** Bytes of the first character. */
  function CharSize(str: seq<byte>): nat
    requires str != []
  {
    if str[0] > 0x80 then 2 else 1
  }

  /** The column of the character at byte `p`. */
  function Column(fontSize: nat, p: nat): nat {
    p * AscWidth(fontSize)
  }

  lemma FirstColumn(fontSize: nat)
    ensures Column(fontSize, 0) == 0
  {
  }

  lemma NextColumn(fontSize: nat, p: nat, n: nat)
    requires n <= p
    ensures Column(fontSize, p) == Column(fontSize, p - n) + Column(fontSize, n)
  {
    assert p * AscWidth(fontSize) == (p - n) * AscWidth(fontSize) + n * AscWidth(fontSize);
  }

  lemma NextStart(str: seq<byte>, p: nat)
    requires WellFormed(str) && StartsAt(str, p) && p > 0
    ensures var n := CharSize(str);
            && n <= p && n <= |str| && WellFormed(str[n..]) && p - n < |str[n..]| && StartsAt(str[n..], p - n)
            && CharAt(str[n..], p - n) == CharAt(str, p)
  {
  }

  lemma LineFirst(fonts: Fonts, style: Style, gs: seq<Glyph>, r: nat, x: nat)
    requires gs != [] && r < FontHeight(style.fontSize)
    ensures var w := Width(style.fontSize, gs[0]);
            && LineWidth(style.fontSize, gs) == w + LineWidth(style.fontSize, gs[1..])
            && (x < w ==> LinePixel(fonts, style, gs, r, x) == GlyphPixel(fonts, style, gs[0], r, x))
            && (w <= x < LineWidth(style.fontSize, gs) ==>
                  LinePixel(fonts, style, gs, r, x) == LinePixel(fonts, style, gs[1..], r, x - w))
  {
    hide GlyphPixel, Width;
  }

  lemma CharWidth(fontSize: nat, str: seq<byte>)
    requires WellFormed(str) && str != []
    ensures Width(fontSize, CharAt(str, 0)) == Column(fontSize, CharSize(str))
  {
  }

  lemma FirstChar(str: seq<byte>)
    requires WellFormed(str) && str != []
    ensures var n := CharSize(str);
            && n <= |str| && WellFormed(str[n..])
            && Glyphs(str) != [] && Glyphs(str)[0] == CharAt(str, 0) && Glyphs(str)[1..] == Glyphs(str[n..])
  {
    hide Glyphs;
    SplitGlyphs(str);
  }

  /** Pixel (r, c) of the character at byte `p`, where it stands in the buffer of the line. */
  predicate ShowsPixel(fonts: Fonts, style: Style, str: seq<byte>, display: Pixels, p: nat, r: nat, c: nat)
    requires p < |str|
  {
    var w := if style.fontSize == 12 then 6 else 8;
    var k := r * (|str| * w) + (p * w + c);
    && k < |display|
    && display[k] == if Marked(fonts, style.fontSize, CharAt(str, p), r, c) then style.text else style.back
  }

  /** A pixel of a character of the string. */
  predicate CharPixel(fontSize: nat, str: seq<byte>, p: nat, r: nat, c: nat)
    requires WellFormed(str)
  {
    StartsAt(str, p) && PixelOf(fontSize, CharAt(str, p), r, c)
  }

  /** Every pixel of the string, or of its first character, is shown. */
  ghost predicate Rastered(fonts: Fonts, style: Style, str: seq<byte>, display: Pixels, whole: bool)
    requires WellFormed(str)
  {
    forall p: nat, r: nat, c: nat :: CharPixel(style.fontSize, str, p, r, c) && (whole || p == 0) ==>
      ShowsPixel(fonts, style, str, display, p, r, c)
  }

  lemma PixelShown(fonts: Fonts, style: Style, str: seq<byte>, display: Pixels, x: nat, p: nat, r: nat, c: nat)
    requires WellFormed(str) && CharPixel(style.fontSize, str, p, r, c)
    requires x <= LineWidth(style.fontSize, Glyphs(str)) && Drawn(fonts, style, Glyphs(str), display, x)
    requires Column(style.fontSize, p) + c < x
    ensures ShowsPixel(fonts, style, str, display, p, r, c)
  {
    hide GlyphPixel, LinePixel, Marked, LineWidth, Glyphs, WellFormed;
    GlyphPixelIs(fonts, style, CharAt(str, p), r, c);
    LinePixelAt(fonts, style, str, p, r, c);
    ColumnsTile(style.fontSize, str);
  }

  lemma LineRastered(fonts: Fonts, style: Style, str: seq<byte>, display: Pixels, ystart: nat)
    requires WellFormed(str)
    requires var gs := Glyphs(str);
             var x := DrawnWidth(style.fontSize, gs, ystart);
             x <= LineWidth(style.fontSize, gs) && Drawn(fonts, style, gs, display, x)
    ensures Rastered(fonts, style, str, display, ystart + style.fontSize <= 128)
  {
    hide Drawn, Marked, LineWidth, Glyphs, WellFormed, ShowsPixel, GlyphPixel, LinePixel;
    var gs, whole := Glyphs(str), ystart + style.fontSize <= 128;
    forall p: nat, r: nat, c: nat | CharPixel(style.fontSize, str, p, r, c) && (whole || p == 0)
      ensures ShowsPixel(fonts, style, str, display, p, r, c)
    {
      FirstChar(str);
      FirstColumn(style.fontSize);
      LinePixelAt(fonts, style, str, p, r, c);
      PixelShown(fonts, style, str, display, DrawnWidth(style.fontSize, gs, ystart), p, r, c);
    }
  }

  // ---------------------------------------------------------------- the program

  datatype Outcome = TooLong | Shown(x0: int, y0: int, x1: int, y1: int, pixels: nat)

  /** The one case in which the window is moved: a lone one-byte character too near the edge. */
  predicate Moved(fontSize: nat, str: seq<byte>, xstart: nat) {
    |str| == 1 && str[0] <= 0x80 && xstart + 2 * AscWidth(fontSize) > 128
  }

  /** Columns drawn: the whole line, or only its first glyph when the line hangs below the panel. */
  function DrawnWidth(fontSize: nat, gs: seq<Glyph>, ystart: nat): nat {
    if gs == [] then 0
    else if ystart + FontHeight(fontSize) > HEIGHT then Width(fontSize, gs[0])
    else LineWidth(fontSize, gs)
  }

  lemma DrawnWidthFits(fontSize: nat, gs: seq<Glyph>, ystart: nat)
    ensures DrawnWidth(fontSize, gs, ystart) <= LineWidth(fontSize, gs)
  {
  }

  /** `nwy_dispstrline`. */
  method DispStrLine(fonts: Fonts, style: Style, str: seq<byte>, xstart: nat, ystart: nat,
                     tmp: array<bv16>, display: array<bv16>) returns (o: Outcome)
    requires WellFormed(str) && tmp != display && tmp.Length == 256 && display.Length == WIDTH * HEIGHT
    modifies tmp, display
    ensures o.TooLong? <==> |str| * AscWidth(style.fontSize) + xstart > 128
    ensures o.TooLong? ==> display[..] == old(display[..])
    ensures o.Shown? ==>
      var gs, h := Glyphs(str), FontHeight(style.fontSize);
      var lineLen := LineWidth(style.fontSize, gs);
      && DrawnWidth(style.fontSize, gs, ystart) <= lineLen
      && Drawn(fonts, style, gs, display[..], DrawnWidth(style.fontSize, gs, ystart))
      && (forall k :: h * lineLen <= k < display.Length ==> display[k] == old(display[k]))
      && o.y0 == ystart
      && o.x0 == (if Moved(style.fontSize, str, xstart) then 128 - 2 * AscWidth(style.fontSize) else xstart)
      && o.pixels == h * lineLen == (o.x1 - o.x0 + 1) * (o.y1 - o.y0 + 1)
      && o.x1 == o.x0 + |str| * (if style.fontSize == 12 then 6 else if style.fontSize == 16 then 8 else 0) - 1
      && o.y1 == o.y0 + (if style.fontSize == 12 || style.fontSize == 16 then style.fontSize else 0) - 1
    ensures o.Shown? ==> Rastered(fonts, style, str, display[..], ystart + style.fontSize <= 128)
  {
    hide Drawn, Remaining, Glyphs, LineWidth, WellFormed, Rastered;
    var fontSize := style.fontSize;
    var ascW, gbkW, h := AscWidth(fontSize), GbkWidth(fontSize), FontHeight(fontSize);
    var lineLen := |str| * ascW;
    if lineLen + xstart > WIDTH {
      return TooLong;
    }
    ghost var gs := Glyphs(str);
    ColumnsTile(fontSize, str);
    Undrawn(fonts, style, gs, display[..]);
    var s, x, strIndex: nat := str, xstart, 0;
    while s != []
      invariant WellFormed(s) && strIndex <= lineLen && (s == str || |s| < |str|)
      invariant (s == str && strIndex == 0) || ystart + h <= HEIGHT
      invariant Remaining(fonts, style, gs, strIndex, Glyphs(s)) && Drawn(fonts, style, gs, display[..], strIndex)
      invariant forall k :: h * lineLen <= k < display.Length ==> display[k] == old(display[k])
      invariant x == if s == [] && Moved(fontSize, str, xstart) then WIDTH - 2 * ascW else xstart
      decreases |s|
    {
      SplitGlyphs(s);
      var g := if s[0] > 0x80 then Two(s[0], s[1]) else One(s[0]);
      DrawGlyph(fonts, style, gs, Glyphs(s), g, strIndex, lineLen, tmp, display);
      strIndex := strIndex + Width(fontSize, g);
      WindowLimits(fontSize, |str|, xstart);
      var limit := if g.Two? then WIDTH - gbkW else WIDTH - 2 * ascW;
      if x > limit {
        x := limit;
      }
      if ystart + h > HEIGHT {
        break;
      }
      s := if g.Two? then s[2..] else s[1..];
    }
    AllDrawn(fonts, style, gs, strIndex, s);
    DrawnWidthFits(fontSize, gs, ystart);
    LineRastered(fonts, style, str, display[..], ystart);
    o := Shown(x, ystart, x + lineLen - 1, ystart + (h - 1), lineLen * h);
  }

  /** One glyph: expanded into the scratch buffer and copied to its columns. */
  method DrawGlyph(fonts: Fonts, style: Style, ghost gs: seq<Glyph>, ghost rest: seq<Glyph>, g: Glyph, at: nat,
                   lineLen: nat, tmp: array<bv16>, display: array<bv16>)
    requires tmp != display && tmp.Length == 256 && display.Length == WIDTH * HEIGHT
    requires lineLen == LineWidth(style.fontSize, gs) <= WIDTH && rest != [] && rest[0] == g
    requires Remaining(fonts, style, gs, at, rest) && at <= lineLen && Drawn(fonts, style, gs, display[..], at)
    modifies tmp, display
    ensures at + Width(style.fontSize, g) <= lineLen
    ensures Drawn(fonts, style, gs, display[..], at + Width(style.fontSize, g))
    ensures Remaining(fonts, style, gs, at + Width(style.fontSize, g), rest[1..])
    ensures forall k :: FontHeight(style.fontSize) * lineLen <= k < display.Length ==> display[k] == old(display[k])
  {
    hide Index, LinePixel, GlyphPixel, Blitted, HoldsGlyph;
    var w, h := Width(style.fontSize, g), FontHeight(style.fontSize);
    FirstGlyphFits(style.fontSize, rest);
    ghost var before := display[..];
    GetGlyphBuf(fonts, style, g, tmp);
    Monotone(h, 16, lineLen);
    Monotone(w, 16, h);
    Blit(tmp, w, h, display, lineLen, at);
    DrawNext(fonts, style, gs, at, rest, tmp[..], before, display[..]);
    KeptBelow(tmp[..], w, before, display[..], lineLen, at, h);
  }

  lemma AllDrawn(fonts: Fonts, style: Style, gs: seq<Glyph>, x: nat, s: seq<byte>)
    requires WellFormed(s) && (s == [] ==> Remaining(fonts, style, gs, x, Glyphs(s)))
    ensures s == [] ==> x == LineWidth(style.fontSize, gs)
    ensures gs == [] ==> LineWidth(style.fontSize, gs) == 0
  {
  }

  lemma Undrawn(fonts: Fonts, style: Style, gs: seq<Glyph>, display: Pixels)
    ensures Drawn(fonts, style, gs, display, 0) && Remaining(fonts, style, gs, 0, gs)
  {
  }

  lemma SplitGlyphs(s: seq<byte>)
    requires WellFormed(s) && s != []
    ensures if s[0] > 0x80 then |s| >= 2 && Glyphs(s) == [Two(s[0], s[1])] + Glyphs(s[2..])
            else Glyphs(s) == [One(s[0])] + Glyphs(s[1..])
    ensures if s[0] > 0x80 then WellFormed(s[2..]) else WellFormed(s[1..])
    ensures Glyphs(s)[1..] == if s[0] > 0x80 then Glyphs(s[2..]) else Glyphs(s[1..])
  {
  }

  /** On a line that fits, only a lone one-byte character can start too far right. */
  lemma WindowLimits(fontSize: nat, n: nat, xstart: nat)
    requires n * AscWidth(fontSize) + xstart <= WIDTH
    ensures n >= 2 ==> xstart <= WIDTH - GbkWidth(fontSize) && xstart <= WIDTH - 2 * AscWidth(fontSize)
  {
  }

  lemma FirstGlyphFits(fontSize: nat, gs: seq<Glyph>)
    requires gs != []
    ensures Width(fontSize, gs[0]) <= LineWidth(fontSize, gs)
  {
  }

  lemma KeptBelow(tmp: Pixels, w: nat, before: Pixels, now: Pixels, lineLen: nat, at: nat, h: nat)
    requires |before| == |now| && Blitted(tmp, w, before, now, lineLen, at, h)
    ensures forall k :: h * lineLen <= k < |now| ==> now[k] == before[k]
  {
  }
}
