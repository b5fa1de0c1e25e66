/** The hex codecs of mqtt.c (`convert_hex_Asc`, `Conver_Asc_Hex`) and hello_world.c
    (`nwy_hex_to_string`, `nwy_HexStrToByte`). Characters are their codes; strings exclude
    the terminating NUL. */
module Hex {
  import opened Bytes

  // ---------------------------------------------------------------- what a hex string denotes

  predicate IsHex(c: byte) {
    (0x30 <= c <= 0x39) || (0x61 <= c <= 0x66) || (0x41 <= c <= 0x46)
  }

  function Digit(c: byte): byte {
    if c <= 0x39 then c - 0x30 else if c <= 0x46 then c - 0x37 else c - 0x57
  }

  function Combine(h: byte, l: byte): byte {
    (h << 4) | l
  }

  predicate AllHex(s: seq<byte>) {
    forall i :: 0 <= i < |s| ==> IsHex(s[i])
  }

  /** The bytes denoted by the first `n` pairs of digits. */
  function Denoted(s: seq<byte>, n: nat): (b: seq<byte>)
    requires 2 * n <= |s|
    ensures |b| == n
    decreases n
  {
    if n == 0 then [] else Denoted(s, n - 1) + [Combine(Digit(s[2 * n - 2]), Digit(s[2 * n - 1]))]
  }

  // ---------------------------------------------------------------- encoders

  function HighNibble(b: byte): byte {
    (b & 0xF0) >> 4
  }

  function LowNibble(b: byte): byte {
    b & 0x0F
  }

  /** `convert_hex_Asc` prints a to f. */
  function LowerDigit(d: byte): byte {
    if d <= 9 then d + 0x30 else d - 10 + 0x61
  }

  /** `nwy_hex_to_string` prints A to F. */
  function UpperDigit(d: byte): byte {
    if d + 0x30 > 0x39 then d + 0x30 + 0x07 else d + 0x30
  }

  function PrintDigit(d: byte, upper: bool): byte {
    if upper then UpperDigit(d) else LowerDigit(d)
  }

  function Encoded(b: seq<byte>, upper: bool): (s: seq<byte>)
    ensures |s| == 2 * |b|
    decreases |b|
  {
    if b == [] then []
    else
      var last := b[|b| - 1];
      Encoded(b[..|b| - 1], upper) + [PrintDigit(HighNibble(last), upper), PrintDigit(LowNibble(last), upper)]
  }

  lemma PrintedNibbles(b: byte, upper: bool)
    ensures var h, l := PrintDigit(HighNibble(b), upper), PrintDigit(LowNibble(b), upper);
            IsHex(h) && IsHex(l) && Digit(h) == HighNibble(b) && Digit(l) == LowNibble(b)
  {
    PrintedDigit(HighNibble(b), upper);
    PrintedDigit(LowNibble(b), upper);
    assert HighNibble(b) < 16 && LowNibble(b) < 16;
  }

  lemma PrintedDigit(d: byte, upper: bool)
    ensures d < 16 ==> IsHex(PrintDigit(d, upper)) && Digit(PrintDigit(d, upper)) == d
  {
  }

  lemma NibblesCombine(b: byte)
    ensures Combine(HighNibble(b), LowNibble(b)) == b
  {
  }

  lemma {:induction false} DenotedPrefix(s: seq<byte>, t: seq<byte>, n: nat)
    requires 2 * n <= |s| && s <= t
    ensures Denoted(s, n) == Denoted(t, n)
    decreases n
  {
    hide Combine, Digit;
    if n > 0 {
      DenotedPrefix(s, t, n - 1);
    }
  }

  /** Either encoder's output is a hex string denoting exactly its input. */
  lemma {:induction false} EncodedDenotes(b: seq<byte>, upper: bool)
    ensures AllHex(Encoded(b, upper)) && Denoted(Encoded(b, upper), |b|) == b
    decreases |b|
  {
    hide Combine, Digit, IsHex, PrintDigit, HighNibble, LowNibble, Denoted;
    if b == [] {
      NothingDenoted();
    } else {
      var rest, last := b[..|b| - 1], b[|b| - 1];
      var h, l := PrintDigit(HighNibble(last), upper), PrintDigit(LowNibble(last), upper);
      EncodedDenotes(rest, upper);
      PrintedNibbles(last, upper);
      NibblesCombine(last);
      DenotedNext(Encoded(rest, upper), h, l, |rest|);
      assert b == rest + [last];
    }
  }

  lemma NothingDenoted()
    ensures Denoted([], 0) == []
  {
  }

  /** Two more digits denote one more byte. */
  lemma DenotedNext(s: seq<byte>, h: byte, l: byte, n: nat)
    requires |s| == 2 * n
    ensures Denoted(s + [h, l], n + 1) == Denoted(s, n) + [Combine(Digit(h), Digit(l))]
  {
    hide Combine, Digit;
    DenotedPrefix(s, s + [h, l], n);
  }

  // ---------------------------------------------------------------- decoders

  /** `Conver_Asc_Hex`: a character that is no digit repeats the value before it. */
  function StickyDigit(s: seq<byte>, k: nat): byte
    requires k < |s|
    decreases k
  {
    if IsHex(s[k]) || k == 0 then Digit(s[k]) else StickyDigit(s, k - 1)
  }

  function Sticky(s: seq<byte>, n: nat): (b: seq<byte>)
    requires 2 * n <= |s|
    ensures |b| == n
    decreases n
  {
    if n == 0 then [] else Sticky(s, n - 1) + [Combine(StickyDigit(s, 2 * n - 2), StickyDigit(s, 2 * n - 1))]
  }

  lemma {:induction false} StickyOnHex(s: seq<byte>, n: nat)
    requires AllHex(s) && 2 * n <= |s|
    ensures Sticky(s, n) == Denoted(s, n)
    decreases n
  {
    hide Combine, Digit, IsHex;
    if n > 0 {
      StickyOnHex(s, n - 1);
    }
  }

  /** `toupper`, then the arithmetic of `nwy_HexStrToByte`. */
  function Upper(c: byte): byte {
    if 0x61 <= c <= 0x7A then c - 0x20 else c
  }

  function Nibble(c: byte): byte {
    if Upper(c) > 0x39 then Upper(c) - 0x37 else Upper(c) - 0x30
  }

  function Plain(s: seq<byte>, n: nat): (b: seq<byte>)
    requires 2 * n <= |s|
    ensures |b| == n
    decreases n
  {
    if n == 0 then [] else Plain(s, n - 1) + [Combine(Nibble(s[2 * n - 2]), Nibble(s[2 * n - 1]))]
  }

  lemma NibbleOfHex(c: byte)
    requires IsHex(c)
    ensures Nibble(c) == Digit(c)
  {
  }

  lemma {:induction false} PlainOnHex(s: seq<byte>, n: nat)
    requires AllHex(s) && 2 * n <= |s|
    ensures Plain(s, n) == Denoted(s, n)
    decreases n
  {
    hide Combine, Digit, IsHex, Nibble;
    if n > 0 {
      PlainOnHex(s, n - 1);
      NibbleOfHex(s[2 * n - 2]);
      NibbleOfHex(s[2 * n - 1]);
    }
  }

  /** Both encoders composed with either decoder are the identity. */
  lemma RoundTrips(b: seq<byte>, upper: bool)
    ensures Sticky(Encoded(b, upper), |b|) == b && Plain(Encoded(b, upper), |b|) == b
  {
    hide Encoded, Sticky, Plain, Denoted;
    EncodedDenotes(b, upper);
    StickyOnHex(Encoded(b, upper), |b|);
    PlainOnHex(Encoded(b, upper), |b|);
  }

  /** The two decoders agree on every even-length hex string, whatever its case. */
  lemma DecodersAgree(s: seq<byte>, n: nat)
    requires AllHex(s) && |s| == 2 * n
    ensures Sticky(s, n) == Plain(s, n)
  {
    hide Sticky, Plain;
    StickyOnHex(s, n);
    PlainOnHex(s, n);
  }

  // ---------------------------------------------------------------- the programs

  method ConvertHexAsc(buf: seq<byte>, result: array<byte>)
    requires 2 * |buf| <= result.Length
    modifies result
    ensures result[..2 * |buf|] == Encoded(buf, false)
  {
    hide HighNibble, LowNibble, LowerDigit;
    for i := 0 to |buf|
      invariant result[..2 * i] == Encoded(buf[..i], false)
    {
      assert buf[..i + 1][..i] == buf[..i];
      result[2 * i] := LowerDigit(HighNibble(buf[i]));
      result[2 * i + 1] := LowerDigit(LowNibble(buf[i]));
      assert result[..2 * (i + 1)] == result[..2 * i] + [result[2 * i], result[2 * i + 1]];
    }
    assert buf[..|buf|] == buf;
  }

  method NwyHexToString(data: seq<byte>) returns (text: array<byte>)
    ensures fresh(text) && text.Length == 2 * |data| + 1
    ensures text[..2 * |data|] == Encoded(data, true) && text[2 * |data|] == 0
  {
    hide HighNibble, LowNibble, UpperDigit;
    text := new byte[2 * |data| + 1](_ => 0);
    for i := 0 to |data|
      invariant text[..2 * i] == Encoded(data[..i], true) && text[2 * |data|] == 0
    {
      assert data[..i + 1][..i] == data[..i];
      text[2 * i] := UpperDigit(HighNibble(data[i]));
      text[2 * i + 1] := UpperDigit(LowNibble(data[i]));
      assert text[..2 * (i + 1)] == text[..2 * i] + [text[2 * i], text[2 * i + 1]];
    }
    assert data[..|data|] == data;
  }

  lemma DigitBelow16(c: byte)
    requires IsHex(c)
    ensures Digit(c) < 16
  {
  }

  lemma SumIsCombine(h: byte, l: byte)
    requires l < 16
    ensures h * 16 + l == Combine(h, l)
  {
  }

  /** What `Conver_Asc_Hex` takes for a hex string. */
  predicate Accepts(s: seq<byte>) {
    |s| % 2 == 0 && (s == [] || IsHex(s[0]))
  }

  /** `Conver_Asc_Hex`. Its validation loop tests the first character once for every
      character, so that one alone decides. */
  method ConverAscHex(buf: seq<byte>, result: array<byte>) returns (ok: bool)
    requires |buf| <= 2 * result.Length
    modifies result
    ensures ok <==> Accepts(buf)
    ensures !ok ==> result[..] == old(result[..])
    ensures ok ==> result[..|buf| / 2] == Sticky(buf, |buf| / 2)
    ensures ok && AllHex(buf) ==> result[..|buf| / 2] == Denoted(buf, |buf| / 2)
  {
    hide IsHex, Digit, Combine, Denoted;
    var len := |buf|;
    if len % 2 != 0 {
      return false;
    }
    for i := 0 to len
      invariant i > 0 ==> IsHex(buf[0])
    {
      if !IsHex(buf[0]) {
        return false;
      }
    }
    var tmp: byte := 0;
    for n := 0 to len / 2
      invariant result[..n] == Sticky(buf, n) && tmp < 16
      invariant n > 0 ==> tmp == StickyDigit(buf, 2 * n - 1)
    {
      var j := 2 * n;
      if IsHex(buf[j]) {
        tmp := Digit(buf[j]);
        DigitBelow16(buf[j]);
      }
      assert tmp == StickyDigit(buf, j);
      result[n] := tmp * 16;
      ghost var high := tmp;
      if IsHex(buf[j + 1]) {
        tmp := Digit(buf[j + 1]);
        DigitBelow16(buf[j + 1]);
      }
      assert tmp == StickyDigit(buf, j + 1);
      SumIsCombine(high, tmp);
      result[n] := result[n] + tmp;
      assert result[..n + 1] == result[..n] + [result[n]];
    }
    if AllHex(buf) {
      StickyOnHex(buf, len / 2);
    }
    return true;
  }

  /** So its verdict is right exactly when the string is not an even-length one that starts
      with a digit and goes wrong later. */
  lemma VerdictIsRightIff(s: seq<byte>)
    ensures (Accepts(s) <==> |s| % 2 == 0 && AllHex(s))
            <==> !(|s| % 2 == 0 && s != [] && IsHex(s[0]) && exists i :: 0 < i < |s| && !IsHex(s[i]))
  {
    hide IsHex;
    if |s| % 2 == 0 && s != [] && IsHex(s[0]) && !AllHex(s) {
      var i :| 0 <= i < |s| && !IsHex(s[i]);
      assert 0 < i;
    }
  }

  /** "1g" is accepted, and decoded as if it were "11". */
  lemma AcceptsNonHex()
    ensures var s: seq<byte> := [0x31, 0x67]; Accepts(s) && !AllHex(s) && Sticky(s, 1) == [0x11]
  {
    var s: seq<byte> := [0x31, 0x67];
    assert !IsHex(s[1]);
    assert StickyDigit(s, 0) == 1;
    assert Sticky(s, 0) == [];
    assert Combine(1, 1) == 0x11;
  }

  /** `nwy_HexStrToByte`, for lengths its `short` index can reach. Of an odd number of characters
      it pairs the last with the one behind the string. */
  method NwyHexStrToByte(source: seq<byte>, sourceLen: nat, dest: array<byte>)
    requires sourceLen + sourceLen % 2 <= |source| && sourceLen <= 0x7FFE && sourceLen <= 2 * dest.Length
    modifies dest
    ensures dest[..(sourceLen + 1) / 2] == Plain(source, (sourceLen + 1) / 2)
  {
    hide Nibble, Combine;
    var i := 0;
    while i < sourceLen
      invariant i % 2 == 0 && i <= sourceLen + 1 && dest[..i / 2] == Plain(source, i / 2)
    {
      dest[i / 2] := Combine(Nibble(source[i]), Nibble(source[i + 1]));
      assert dest[..i / 2 + 1] == dest[..i / 2] + [dest[i / 2]];
      i := i + 2;
    }
  }

  // ---------------------------------------------------------------- characters

  /** The two characters of every byte: high half first, letters in the encoder's own case. */
  lemma {:induction false} EncodedChars(b: seq<byte>, upper: bool, i: nat)
    requires i < |b|
    ensures Encoded(b, upper)[2 * i] == Char(b[i] >> 4, upper)
    ensures Encoded(b, upper)[2 * i + 1] == Char(b[i] & 0x0F, upper)
    decreases |b|
  {
    hide PrintDigit, HighNibble, LowNibble, Char;
    var rest := b[..|b| - 1];
    if i < |rest| {
      EncodedChars(rest, upper, i);
      assert Encoded(b, upper)[2 * i] == Encoded(rest, upper)[2 * i];
      assert Encoded(b, upper)[2 * i + 1] == Encoded(rest, upper)[2 * i + 1];
    } else {
      PrintedChars(b[i], upper);
    }
  }

  /** 0 to 9, then a to f or A to F. */
  function Char(d: byte, upper: bool): byte {
    if d < 10 then 0x30 + d else if upper then 0x41 + (d - 10) else 0x61 + (d - 10)
  }

  lemma PrintedChars(b: byte, upper: bool)
    ensures PrintDigit(HighNibble(b), upper) == Char(b >> 4, upper)
    ensures PrintDigit(LowNibble(b), upper) == Char(b & 0x0F, upper)
  {
    NibblesAre(b);
    PrintIsChar(b >> 4, upper);
    PrintIsChar(b & 0x0F, upper);
  }

  lemma NibblesAre(b: byte)
    ensures HighNibble(b) == b >> 4 && LowNibble(b) == b & 0x0F && b >> 4 < 16 && b & 0x0F < 16
  {
  }

  lemma PrintIsChar(d: byte, upper: bool)
    requires d < 16
    ensures PrintDigit(d, upper) == Char(d, upper)
  {
  }

  /** `Conver_Asc_Hex` takes for each character the value of the latest digit up to it. */
  lemma {:induction false} StickyIsLatest(s: seq<byte>, k: nat, j: nat)
    requires j <= k < |s| && IsHex(s[j]) && forall i :: j < i <= k ==> !IsHex(s[i])
    ensures StickyDigit(s, k) == Digit(s[j])
    decreases k
  {
    hide IsHex, Digit;
    if j < k {
      StickyIsLatest(s, k - 1, j);
    }
  }

  lemma {:induction false} StickyBytes(s: seq<byte>, n: nat, i: nat)
    requires i < n && 2 * n <= |s|
    ensures Sticky(s, n)[i] == (StickyDigit(s, 2 * i) << 4) | StickyDigit(s, 2 * i + 1)
    decreases n
  {
    hide StickyDigit;
    if i < n - 1 {
      StickyBytes(s, n - 1, i);
    }
  }

  /** "zz" is no hex string; `nwy_HexStrToByte` makes 0x33 of it. */
  lemma DecodesNonHex()
    ensures var s: seq<byte> := [0x7A, 0x7A]; !AllHex(s) && Plain(s, 1) == [0x33]
  {
    var s: seq<byte> := [0x7A, 0x7A];
    assert !IsHex(s[0]);
    assert Nibble(0x7A) == 0x23 && Combine(0x23, 0x23) == 0x33;
    assert Plain(s, 0) == [];
  }

  /** The digits, and what they are worth. */
  lemma HexDigits(c: byte)
    ensures IsHex(c) <==> 0x30 <= c < 0x3A || 0x41 <= c < 0x47 || 0x61 <= c < 0x67
    ensures 0x30 <= c < 0x3A ==> Digit(c) == c - 0x30
    ensures 0x41 <= c < 0x47 ==> Digit(c) == 10 + (c - 0x41)
    ensures 0x61 <= c < 0x67 ==> Digit(c) == 10 + (c - 0x61)
  {
  }

  /** What `nwy_HexStrToByte` takes any character for, letters of both cases alike. */
  lemma NibbleOfAny(c: byte)
    ensures c < 0x3A ==> Nibble(c) == c - 0x30
    ensures 0x61 <= c < 0x7B ==> Nibble(c) == 10 + (c - 0x61)
    ensures 0x3A <= c && !(0x61 <= c < 0x7B) ==> Nibble(c) == c - 0x37
  {
  }

  lemma {:induction false} PlainBytes(s: seq<byte>, n: nat, i: nat)
    requires i < n && 2 * n <= |s|
    ensures Plain(s, n)[i] == (Nibble(s[2 * i]) << 4) | Nibble(s[2 * i + 1])
    decreases n
  {
    hide Nibble;
    if i < n - 1 {
      PlainBytes(s, n - 1, i);
    }
  }
}
