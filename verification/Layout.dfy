/** Bytes as numbers: little-endian fields as `struct` packs and unpacks them. */
module Layout {
  import opened Bytes

  function Val(b: byte): (n: nat)
    ensures n < 256
  {
    b as int
  }

  function ByteOf(n: nat): (b: byte)
    requires n < 256
    ensures Val(b) == n
  {
    assert n % 256 == n;
    n as byte
  }

  /** Format `H`. */
  function Pack16(n: nat): (s: seq<byte>)
    requires n < 0x1_0000
    ensures |s| == 2
  {
    [ByteOf(n % 256), ByteOf(n / 256)]
  }

  function Unpack16(s: seq<byte>, p: nat): (n: nat)
    requires p + 2 <= |s|
    ensures n < 0x1_0000
  {
    Val(s[p]) + 256 * Val(s[p + 1])
  }

  /** Format `I`. */
  function Pack32(n: nat): (s: seq<byte>)
    requires n < 0x1_0000_0000
    ensures |s| == 4
  {
    Pack16(n % 0x1_0000) + Pack16(n / 0x1_0000)
  }

  function Unpack32(s: seq<byte>, p: nat): (n: nat)
    requires p + 4 <= |s|
    ensures n < 0x1_0000_0000
  {
    Unpack16(s, p) + 0x1_0000 * Unpack16(s, p + 2)
  }

  lemma Field16(s: seq<byte>, p: nat, n: nat)
    requires n < 0x1_0000 && p + 2 <= |s| && s[p..p + 2] == Pack16(n)
    ensures Unpack16(s, p) == n
  {
    hide Val, ByteOf;
    assert s[p] == s[p..p + 2][0] && s[p + 1] == s[p..p + 2][1];
  }

  lemma Field32(s: seq<byte>, p: nat, n: nat)
    requires n < 0x1_0000_0000 && p + 4 <= |s| && s[p..p + 4] == Pack32(n)
    ensures Unpack32(s, p) == n
  {
    hide Unpack16, Pack16;
    assert s[p..p + 2] == s[p..p + 4][..2] == Pack16(n % 0x1_0000);
    assert s[p + 2..p + 4] == s[p..p + 4][2..] == Pack16(n / 0x1_0000);
    Field16(s, p, n % 0x1_0000);
    Field16(s, p + 2, n / 0x1_0000);
  }

  /** The two readers spelled out: the byte at the lowest place counts least. */
  lemma LittleEndian16(s: seq<byte>, p: nat)
    requires p + 2 <= |s|
    ensures Unpack16(s, p) == s[p] as int + 256 * (s[p + 1] as int)
  {
  }

  lemma LittleEndian32(s: seq<byte>, p: nat)
    requires p + 4 <= |s|
    ensures Unpack32(s, p) ==
            s[p] as int + 0x100 * (s[p + 1] as int) + 0x1_0000 * (s[p + 2] as int) + 0x100_0000 * (s[p + 3] as int)
  {
    hide Unpack16;
    LittleEndian16(s, p);
    LittleEndian16(s, p + 2);
  }

  predicate Words32(ws: seq<int>) {
    forall k :: 0 <= k < |ws| ==> 0 <= ws[k] < 0x1_0000_0000
  }

  /** Format `<n>I`. */
  function PackWords(ws: seq<int>): (s: seq<byte>)
    requires Words32(ws)
    ensures |s| == 4 * |ws|
  {
    if ws == [] then [] else Pack32(ws[0]) + PackWords(ws[1..])
  }

  lemma {:induction false} WordSlice(ws: seq<int>, k: nat)
    requires Words32(ws) && k < |ws|
    ensures PackWords(ws)[4 * k..4 * k + 4] == Pack32(ws[k])
    decreases |ws|
  {
    hide Pack32;
    var rest := PackWords(ws[1..]);
    if k == 0 {
      assert (Pack32(ws[0]) + rest)[..4] == Pack32(ws[0]);
    } else {
      WordSlice(ws[1..], k - 1);
      assert (Pack32(ws[0]) + rest)[4 * k..4 * k + 4] == rest[4 * (k - 1)..4 * (k - 1) + 4];
    }
  }

  /** The k-th of a row of words that stands at `p`. */
  lemma WordIn(s: seq<byte>, p: nat, ws: seq<int>, k: nat)
    requires Words32(ws) && k < |ws| && p + 4 * |ws| <= |s| && s[p..p + 4 * |ws|] == PackWords(ws)
    ensures Unpack32(s, p + 4 * k) == ws[k]
  {
    hide Pack32, Unpack32, PackWords;
    WordSlice(ws, k);
    SubSlice(s, p, p + 4 * |ws|, 4 * k, 4 * k + 4);
    Field32(s, p + 4 * k, ws[k]);
  }

  /** Fields read the same in two byte strings that agree there. */
  lemma SameField16(s: seq<byte>, t: seq<byte>, p: nat)
    requires p + 2 <= |s| && p + 2 <= |t| && s[p..p + 2] == t[p..p + 2]
    ensures Unpack16(s, p) == Unpack16(t, p)
  {
    assert s[p] == s[p..p + 2][0] && s[p + 1] == s[p..p + 2][1];
    assert t[p] == t[p..p + 2][0] && t[p + 1] == t[p..p + 2][1];
  }

  /** Format `<n>s`: cut or padded with zeros to exactly `n` bytes. */
  function Fixed(s: seq<byte>, n: nat): (r: seq<byte>)
    ensures |r| == n
  {
    if |s| >= n then s[..n] else s + Zeros(n - |s|)
  }

  lemma FixedBytes(s: seq<byte>, n: nat, k: nat)
    requires k < n
    ensures Fixed(s, n)[k] == if k < |s| then s[k] else 0
  {
  }

  function Zeros(n: nat): (r: seq<byte>)
    ensures |r| == n
  {
    seq(n, _ => 0)
  }

  lemma SubSlice(s: seq<byte>, p: nat, q: nat, i: nat, j: nat)
    requires p <= q <= |s| && i <= j <= q - p
    ensures s[p..q][i..j] == s[p + i..p + j]
  {
    var a, b := s[p..q][i..j], s[p + i..p + j];
    assert |a| == |b|;
    assert forall k :: 0 <= k < |a| ==> a[k] == b[k];
  }

  // ---------------------------------------------------------------- pieces written one after another

  function Flat(ss: seq<seq<byte>>): seq<byte>
    decreases |ss|
  {
    if ss == [] then [] else Flat(ss[..|ss| - 1]) + ss[|ss| - 1]
  }

  /** Where piece `i` starts. */
  function StartOf(ss: seq<seq<byte>>, i: nat): nat
    requires i <= |ss|
  {
    |Flat(ss[..i])|
  }

  lemma StartNext(ss: seq<seq<byte>>, i: nat)
    requires i < |ss|
    ensures StartOf(ss, i + 1) == StartOf(ss, i) + |ss[i]|
  {
    assert ss[..i + 1][..i] == ss[..i];
  }

  lemma {:induction false} PieceOfFlat(ss: seq<seq<byte>>, i: nat)
    requires i < |ss|
    ensures StartOf(ss, i) + |ss[i]| <= |Flat(ss)|
    ensures Flat(ss)[StartOf(ss, i)..StartOf(ss, i) + |ss[i]|] == ss[i]
    decreases |ss|
  {
    var rest := ss[..|ss| - 1];
    if i < |ss| - 1 {
      PieceOfFlat(rest, i);
      assert rest[..i] == ss[..i];
      var a, b := StartOf(ss, i), StartOf(ss, i) + |ss[i]|;
      assert Flat(ss)[a..b] == Flat(rest)[a..b];
    }
  }

  lemma {:induction false} StartOfUniform(ss: seq<seq<byte>>, i: nat, k: nat)
    requires i <= |ss| && forall j :: 0 <= j < |ss| ==> |ss[j]| == k
    ensures StartOf(ss, i) == i * k
    decreases i
  {
    if i > 0 {
      StartNext(ss, i - 1);
      StartOfUniform(ss, i - 1, k);
    }
  }
}
