/** cpio archives in the old binary format (`CpioConfig` of tools/pacgen.py and
    `create_prepack_cpio` of tools/modemgen.py). Names are the UTF-8 bytes, data and stat
    fields are inputs. */
module Cpio {
  import opened Bytes
  import opened Layout

  const MAGIC: seq<byte> := [0xC7, 0x71]
  const TRAILER_NAME: seq<byte> := [0x54, 0x52, 0x41, 0x49, 0x4C, 0x45, 0x52, 0x21, 0x21, 0x21]   // TRAILER!!!

  datatype Stat = Stat(dev: nat, ino: nat, mode: nat, uid: nat, gid: nat, nlink: nat, mtime: int)
  datatype Item = Item(name: seq<byte>, data: seq<byte>, stat: Stat)

  /** `ushort_lo` and `ushort_hi`. */
  function Lo(x: int): (r: nat)
    ensures r < 0x1_0000
  {
    x % 0x1_0000
  }

  function Hi(x: int): (r: nat)
    ensures r < 0x1_0000
  {
    x / 0x1_0000 % 0x1_0000
  }

  function Even(n: nat): (r: nat)
    ensures n <= r <= n + 1
  {
    (n + 1) / 2 * 2
  }

  // ---------------------------------------------------------------- writing

  predicate Shorts(fs: seq<nat>) {
    forall k :: 0 <= k < |fs| ==> fs[k] < 0x1_0000
  }

  function PackShorts(fs: seq<nat>): (s: seq<byte>)
    requires Shorts(fs)
    ensures |s| == 2 * |fs|
  {
    if fs == [] then [] else Pack16(fs[0]) + PackShorts(fs[1..])
  }

  lemma {:induction false} ShortAt(fs: seq<nat>, k: nat)
    requires Shorts(fs) && k < |fs|
    ensures Unpack16(PackShorts(fs), 2 * k) == fs[k]
    decreases |fs|
  {
    hide Pack16, Unpack16;
    var s := PackShorts(fs);
    if k == 0 {
      assert s[0..2] == Pack16(fs[0]);
      Field16(s, 0, fs[0]);
    } else {
      ShortAt(fs[1..], k - 1);
      ShiftedShort(Pack16(fs[0]), PackShorts(fs[1..]), 2 * (k - 1));
    }
  }

  lemma ShiftedShort(a: seq<byte>, b: seq<byte>, p: nat)
    requires p + 2 <= |b|
    ensures Unpack16(a + b, |a| + p) == Unpack16(b, p)
  {
  }

  function Fields(it: Item): (fs: seq<nat>)
    ensures |fs| == 12 && Shorts(fs)
  {
    [Lo(it.stat.dev), Lo(it.stat.ino), Lo(it.stat.mode), Lo(it.stat.uid), Lo(it.stat.gid), Lo(it.stat.nlink), 0,
     Hi(it.stat.mtime), Lo(it.stat.mtime), Lo(|it.name| + 1), Hi(|it.data|), Lo(|it.data|)]
  }

  /** `_gen_file_data`: header, name with NUL, data, each padded to an even length. */
  function EntryBytes(it: Item): (s: seq<byte>)
    ensures |s| == 26 + Even(|it.name| + 1) + Even(|it.data|)
  {
    MAGIC + PackShorts(Fields(it)) + Fixed(it.name, Even(|it.name| + 1)) + Fixed(it.data, Even(|it.data|))
  }

  const TRAILER: Item := Item(TRAILER_NAME, [], Stat(0, 0, 0, 0, 0, 1, 0))

  /** All entries and the trailer. */
  function ArchiveBytes(items: seq<Item>): seq<byte> {
    if items == [] then EntryBytes(TRAILER) else EntryBytes(items[0]) + ArchiveBytes(items[1..])
  }

  // ---------------------------------------------------------------- reading

  datatype Listing = Listing(entries: seq<(seq<byte>, seq<byte>)>) | Malformed

  function NameSize(s: seq<byte>, pos: nat): nat
    requires pos + 26 <= |s|
  {
    Unpack16(s, pos + 20)
  }

  function DataSize(s: seq<byte>, pos: nat): nat
    requires pos + 26 <= |s|
  {
    Unpack16(s, pos + 22) * 0x1_0000 + Unpack16(s, pos + 24)
  }

  /** An archive reader that follows the format: entries up to the one named TRAILER!!!. */
  function Read(s: seq<byte>, pos: nat): Listing
    decreases |s| - pos
  {
    if pos + 26 > |s| || s[pos..pos + 2] != MAGIC then Malformed
    else
      var nameSize, dataSize := NameSize(s, pos), DataSize(s, pos);
      var dataAt := pos + 26 + Even(nameSize);
      var next := dataAt + Even(dataSize);
      if nameSize == 0 || next > |s| || s[pos + 26 + nameSize - 1] != 0 then Malformed
      else
        var name := s[pos + 26..pos + 26 + nameSize - 1];
        if name == TRAILER_NAME then Listing([])
        else
          match Read(s, next)
          case Malformed => Malformed
          case Listing(rest) => Listing([(name, s[dataAt..dataAt + dataSize])] + rest)
  }

  function Pairs(items: seq<Item>): seq<(seq<byte>, seq<byte>)> {
    if items == [] then [] else [(items[0].name, items[0].data)] + Pairs(items[1..])
  }

  /** The header fields hold the sizes, and the name does not end the archive. */
  predicate Representable(it: Item) {
    |it.name| + 1 < 0x1_0000 && |it.data| < 0x1_0000_0000 && it.name != TRAILER_NAME
  }

  // ---------------------------------------------------------------- what the reader sees at an entry

  /** The bytes of `it` stand at `pos`. */
  predicate StandsAt(s: seq<byte>, pos: nat, it: Item) {
    pos + |EntryBytes(it)| <= |s| && s[pos..pos + |EntryBytes(it)|] == EntryBytes(it)
  }

  lemma HeaderOf(s: seq<byte>, pos: nat, it: Item)
    requires StandsAt(s, pos, it)
    ensures pos + 26 <= |s| && s[pos..pos + 2] == MAGIC
    ensures NameSize(s, pos) == Lo(|it.name| + 1)
    ensures DataSize(s, pos) == Hi(|it.data|) * 0x1_0000 + Lo(|it.data|)
  {
    hide PackShorts, Fixed, Unpack16, Lo, Hi, Even;
    var e := EntryBytes(it);
    var fs := PackShorts(Fields(it));
    SubSlice(s, pos, pos + |e|, 0, 2);
    SubSlice(s, pos, pos + |e|, 2, 26);
    assert e[..2] == MAGIC && e[2..26] == fs;
    ShortAt(Fields(it), 9);
    ShortAt(Fields(it), 10);
    ShortAt(Fields(it), 11);
    FieldInside(s, pos + 2, fs, 18);
    FieldInside(s, pos + 2, fs, 20);
    FieldInside(s, pos + 2, fs, 22);
  }

  lemma FieldInside(s: seq<byte>, p: nat, f: seq<byte>, k: nat)
    requires p + |f| <= |s| && s[p..p + |f|] == f && k + 2 <= |f|
    ensures Unpack16(s, p + k) == Unpack16(f, k)
  {
    assert s[p + k] == s[p..p + |f|][k] && s[p + k + 1] == s[p..p + |f|][k + 1];
  }

  lemma SizesFit(n: nat)
    ensures n < 0x1_0000 <==> Lo(n) == n
    ensures n < 0x1_0000_0000 <==> Hi(n) * 0x1_0000 + Lo(n) == n
  {
  }

  /** Name and data of an entry whose sizes fit. */
  lemma NameAndData(s: seq<byte>, pos: nat, it: Item)
    requires StandsAt(s, pos, it)
    ensures var n, d := |it.name| + 1, |it.data|;
            && pos + 26 + Even(n) + Even(d) <= |s|
            && s[pos + 26 + n - 1] == 0 && s[pos + 26..pos + 26 + n - 1] == it.name
            && s[pos + 26 + Even(n)..pos + 26 + Even(n) + d] == it.data
  {
    hide PackShorts, Even;
    var e, n, d := EntryBytes(it), |it.name| + 1, |it.data|;
    SubSlice(s, pos, pos + |e|, 26, 26 + n - 1);
    SubSlice(s, pos, pos + |e|, 26 + Even(n), 26 + Even(n) + d);
    var front := MAGIC + PackShorts(Fields(it));
    EntryPieces(front, it.name, it.data, Even(n), Even(d));
    assert e[26 + n - 1] == s[pos..pos + |e|][26 + n - 1] == s[pos + 26 + n - 1];
  }

  lemma EntryPieces(front: seq<byte>, name: seq<byte>, data: seq<byte>, n: nat, d: nat)
    requires |name| < n && |data| <= d
    ensures var e := front + Fixed(name, n) + Fixed(data, d);
            && e[|front|..|front| + |name|] == name && e[|front| + |name|] == 0
            && e[|front| + n..|front| + n + |data|] == data
  {
    var e := front + Fixed(name, n) + Fixed(data, d);
    assert e[|front|..|front| + |name|] == Fixed(name, n)[..|name|];
    assert e[|front| + n..|front| + n + |data|] == Fixed(data, d)[..|data|];
  }

  /** Reading a representable entry yields it and goes on behind it. */
  lemma ReadEntry(s: seq<byte>, pos: nat, it: Item)
    requires StandsAt(s, pos, it) && Representable(it)
    ensures Read(s, pos) == match Read(s, pos + |EntryBytes(it)|)
                            case Malformed => Malformed
                            case Listing(rest) => Listing([(it.name, it.data)] + rest)
  {
    hide EntryBytes, Even, NameSize, DataSize, Lo, Hi, StandsAt;
    HeaderOf(s, pos, it);
    NameAndData(s, pos, it);
    SizesFit(|it.name| + 1);
    SizesFit(|it.data|);
    EntryLength(it);
  }

  lemma EntryLength(it: Item)
    ensures |EntryBytes(it)| == 26 + Even(|it.name| + 1) + Even(|it.data|)
  {
  }

  lemma ReadTrailer(s: seq<byte>, pos: nat)
    requires StandsAt(s, pos, TRAILER)
    ensures Read(s, pos) == Listing([])
  {
    hide EntryBytes, Even, NameSize, DataSize, Lo, Hi;
    HeaderOf(s, pos, TRAILER);
    NameAndData(s, pos, TRAILER);
    SizesFit(|TRAILER.name| + 1);
    SizesFit(|TRAILER.data|);
  }

  /** An entry that is not representable is never read back. */
  lemma ReadMisfit(s: seq<byte>, pos: nat, it: Item, rest: seq<(seq<byte>, seq<byte>)>)
    requires StandsAt(s, pos, it) && !Representable(it)
    ensures Read(s, pos) != Listing([(it.name, it.data)] + rest)
  {
    hide EntryBytes, Even, NameSize, DataSize, Lo, Hi, Read;
    HeaderOf(s, pos, it);
    SizesFit(|it.name| + 1);
    SizesFit(|it.data|);
    FirstEntry(s, pos);
    assert ([(it.name, it.data)] + rest)[0] == (it.name, it.data);
  }

  /** The first entry read has the sizes its header gives. */
  lemma FirstEntry(s: seq<byte>, pos: nat)
    ensures Read(s, pos).Listing? && Read(s, pos).entries != [] ==>
              && pos + 26 <= |s| && var e := Read(s, pos).entries[0];
              |e.0| == NameSize(s, pos) - 1 && |e.1| == DataSize(s, pos) && e.0 != TRAILER_NAME
  {
    hide Even, NameSize, DataSize;
  }

  lemma ArchiveHead(s: seq<byte>, pos: nat, items: seq<Item>)
    requires items != [] && pos <= |s| && s[pos..] == ArchiveBytes(items)
    ensures StandsAt(s, pos, items[0])
    ensures pos + |EntryBytes(items[0])| <= |s| && s[pos + |EntryBytes(items[0])|..] == ArchiveBytes(items[1..])
  {
    hide EntryBytes;
    var e := EntryBytes(items[0]);
    assert s[pos..][..|e|] == e && s[pos..][|e|..] == ArchiveBytes(items[1..]);
    assert s[pos..pos + |e|] == s[pos..][..|e|];
    assert s[pos + |e|..] == s[pos..][|e|..];
  }

  /** The archive reads back as exactly its list of names and data, stopping at its own
      trailer, if and only if every entry is representable. */
  lemma {:induction false} RoundTripIff(s: seq<byte>, pos: nat, items: seq<Item>)
    requires pos <= |s| && s[pos..] == ArchiveBytes(items)
    ensures Read(s, pos) == Listing(Pairs(items)) <==> forall k :: 0 <= k < |items| ==> Representable(items[k])
    decreases |items|
  {
    hide EntryBytes, Read, Representable;
    if items == [] {
      assert s[pos..pos + |EntryBytes(TRAILER)|] == s[pos..];
      ReadTrailer(s, pos);
    } else {
      var it, rest := items[0], items[1..];
      ArchiveHead(s, pos, items);
      if Representable(it) {
        ReadEntry(s, pos, it);
        RoundTripIff(s, pos + |EntryBytes(it)|, rest);
        ListingCons(Read(s, pos + |EntryBytes(it)|), it, Pairs(rest));
        assert forall k :: 1 <= k < |items| ==> items[k] == rest[k - 1];
        assert forall k :: 0 <= k < |rest| ==> rest[k] == items[k + 1];
      } else {
        ReadMisfit(s, pos, it, Pairs(rest));
      }
    }
  }

  /** Such an archive: an entry with the trailer's name hides itself and all behind it. */
  lemma TrailerNameHides(items: seq<Item>)
    ensures Read(ArchiveBytes([TRAILER] + items), 0) == Listing([])
  {
    hide Read, EntryBytes;
    var s := ArchiveBytes([TRAILER] + items);
    assert ([TRAILER] + items)[1..] == items;
    assert s[0..|EntryBytes(TRAILER)|] == EntryBytes(TRAILER);
    ReadTrailer(s, 0);
  }

  lemma ListingCons(r: Listing, it: Item, rest: seq<(seq<byte>, seq<byte>)>)
    ensures r == Listing(rest) <==> r.Listing? && [(it.name, it.data)] + r.entries == [(it.name, it.data)] + rest
  {
    if r.Listing? && [(it.name, it.data)] + r.entries == [(it.name, it.data)] + rest {
      assert r.entries == ([(it.name, it.data)] + r.entries)[1..] == ([(it.name, it.data)] + rest)[1..] == rest;
    }
  }

  // ---------------------------------------------------------------- the two programs

  /** `gen_data`, over the entries in the order of their sorted local paths. */
  method GenData(items: seq<Item>) returns (data: seq<byte>)
    ensures data == ArchiveBytes(items)
  {
    hide EntryBytes;
    data := [];
    for i := 0 to |items|
      invariant data + ArchiveBytes(items[i..]) == ArchiveBytes(items)
    {
      assert items[i..][1..] == items[i + 1..];
      assert data + ArchiveBytes(items[i..]) == (data + EntryBytes(items[i])) + ArchiveBytes(items[i + 1..]);
      data := data + EntryBytes(items[i]);
    }
    data := data + EntryBytes(TRAILER);
  }

  datatype Prepacked = Bytes(data: seq<byte>) | StructError

  /** The two unmasked fields of `create_prepack_cpio`. */
  predicate Packable(it: Item) {
    0 <= it.stat.mtime / 0x1_0000 < 0x1_0000 && |it.data| / 0x1_0000 < 0x1_0000
  }

  /** The time and the size need no more than 32 bits. */
  lemma PackableIff(it: Item)
    ensures Packable(it) <==> 0 <= it.stat.mtime < 0x1_0000_0000 && |it.data| < 0x1_0000_0000
  {
  }

  function PrepackFields(it: Item): (fs: seq<nat>)
    requires Packable(it)
    ensures |fs| == 12 && Shorts(fs)
  {
    [it.stat.dev % 0x1_0000, it.stat.ino % 0x1_0000, it.stat.mode % 0x1_0000, it.stat.uid % 0x1_0000,
     it.stat.gid % 0x1_0000, it.stat.nlink % 0x1_0000, 0, it.stat.mtime / 0x1_0000, it.stat.mtime % 0x1_0000,
     (|it.name| + 1) % 0x1_0000, |it.data| / 0x1_0000, |it.data| % 0x1_0000]
  }

  lemma SameFields(it: Item)
    requires Packable(it)
    ensures PrepackFields(it) == Fields(it)
  {
  }

  /** `create_prepack_cpio`: the same bytes as `gen_data` for a non-empty list, nothing at all
      for an empty one, an exception when a time or size needs more than 32 bits. */
  method CreatePrepackCpio(items: seq<Item>) returns (r: Prepacked)
    ensures r.StructError? <==> exists k :: 0 <= k < |items| && !Packable(items[k])
    ensures r.Bytes? ==> r.data == if items == [] then [] else ArchiveBytes(items)
  {
    hide PackShorts, Fields, PrepackFields, Fixed, Even, Packable;
    var out := [];
    for i := 0 to |items|
      invariant out + ArchiveBytes(items[i..]) == ArchiveBytes(items) && (i == 0 ==> out == [])
      invariant forall k :: 0 <= k < i ==> Packable(items[k])
    {
      var it := items[i];
      if !Packable(it) {
        return StructError;
      }
      SameFields(it);
      assert items[i..][1..] == items[i + 1..];
      assert out + ArchiveBytes(items[i..]) == (out + EntryBytes(it)) + ArchiveBytes(items[i + 1..]);
      var header := MAGIC + PackShorts(PrepackFields(it));
      out := out + (header + Fixed(it.name, Even(|it.name| + 1)) + Fixed(it.data, Even(|it.data|)));
    }
    if |items| > 0 {
      out := out + EntryBytes(TRAILER);
    }
    return Bytes(out);
  }

  // ---------------------------------------------------------------- the bytes of an entry

  lemma WordAt(it: Item, k: nat)
    requires k < 12
    ensures Unpack16(EntryBytes(it), 2 + 2 * k) == Fields(it)[k]
  {
    hide PackShorts, Fixed, Unpack16, Fields, Even;
    var e, fs := EntryBytes(it), PackShorts(Fields(it));
    assert e[2..2 + |fs|] == fs;
    ShortAt(Fields(it), k);
    FieldInside(e, 2, fs, 2 * k);
  }

  /** An entry word by word: the magic, the stat words at their places, the sizes; then the name
      and the data at even places, zeros filling up. */
  lemma EntryLayout(it: Item)
    ensures var s, n, d := EntryBytes(it), |it.name| + 1, |it.data|;
            var dataAt := 26 + n + n % 2;
            && |s| == dataAt + d + d % 2 && s[0] == 0xC7 && s[1] == 0x71
            && Unpack16(s, 2) == it.stat.dev % 0x1_0000 && Unpack16(s, 4) == it.stat.ino % 0x1_0000
            && Unpack16(s, 6) == it.stat.mode % 0x1_0000 && Unpack16(s, 8) == it.stat.uid % 0x1_0000
            && Unpack16(s, 10) == it.stat.gid % 0x1_0000 && Unpack16(s, 12) == it.stat.nlink % 0x1_0000
            && Unpack16(s, 14) == 0
            && Unpack16(s, 16) == it.stat.mtime / 0x1_0000 % 0x1_0000 && Unpack16(s, 18) == it.stat.mtime % 0x1_0000
            && Unpack16(s, 20) == n % 0x1_0000
            && Unpack16(s, 22) == d / 0x1_0000 % 0x1_0000 && Unpack16(s, 24) == d % 0x1_0000
            && s[26..26 + n - 1] == it.name && s[dataAt..dataAt + d] == it.data
            && (forall i :: 26 + n - 1 <= i < dataAt || dataAt + d <= i < |s| ==> s[i] == 0)
  {
    hide PackShorts, Unpack16, Even, Fixed;
    var s, n, d := EntryBytes(it), |it.name| + 1, |it.data|;
    EvenIs(n);
    EvenIs(d);
    forall k | 0 <= k < 12
      ensures Unpack16(s, 2 + 2 * k) == Fields(it)[k]
    {
      WordAt(it, k);
    }
    assert Unpack16(s, 2 + 2 * 0) == Fields(it)[0] && Unpack16(s, 2 + 2 * 1) == Fields(it)[1];
    assert Unpack16(s, 2 + 2 * 2) == Fields(it)[2] && Unpack16(s, 2 + 2 * 3) == Fields(it)[3];
    assert Unpack16(s, 2 + 2 * 4) == Fields(it)[4] && Unpack16(s, 2 + 2 * 5) == Fields(it)[5];
    assert Unpack16(s, 2 + 2 * 6) == Fields(it)[6] && Unpack16(s, 2 + 2 * 7) == Fields(it)[7];
    assert Unpack16(s, 2 + 2 * 8) == Fields(it)[8] && Unpack16(s, 2 + 2 * 9) == Fields(it)[9];
    assert Unpack16(s, 2 + 2 * 10) == Fields(it)[10] && Unpack16(s, 2 + 2 * 11) == Fields(it)[11];
    PaddedPieces(MAGIC + PackShorts(Fields(it)), it.name, it.data, Even(n), Even(d));
  }

  lemma EvenIs(n: nat)
    ensures Even(n) == n + n % 2
  {
  }

  lemma PaddedPieces(front: seq<byte>, name: seq<byte>, data: seq<byte>, n: nat, d: nat)
    requires |name| < n && |data| <= d
    ensures var e, at := front + Fixed(name, n) + Fixed(data, d), |front| + n;
            && e[|front|..|front| + |name|] == name && e[at..at + |data|] == data
            && forall i :: |front| + |name| <= i < at || at + |data| <= i < at + d ==> e[i] == 0
  {
    EntryPieces(front, name, data, n, d);
    var e, at := front + Fixed(name, n) + Fixed(data, d), |front| + n;
    forall i | |front| + |name| <= i < at || at + |data| <= i < at + d
      ensures e[i] == 0
    {
      if i < at {
        FixedBytes(name, n, i - |front|);
      } else {
        FixedBytes(data, d, i - at);
      }
    }
  }

  /** The trailer is an entry of no data, one link, named TRAILER!!!. */
  lemma TrailerLayout()
    ensures var s := EntryBytes(TRAILER);
            && |s| == 38 && s[26..36] == [0x54, 0x52, 0x41, 0x49, 0x4C, 0x45, 0x52, 0x21, 0x21, 0x21]
            && Unpack16(s, 12) == 1 && Unpack16(s, 20) == 11 && Unpack16(s, 22) == 0 && Unpack16(s, 24) == 0
            && (forall k :: 1 <= k <= 9 && k != 6 ==> Unpack16(s, 2 * k) == 0)
  {
    hide Unpack16, EntryBytes;
    EntryLayout(TRAILER);
    var s := EntryBytes(TRAILER);
    forall k | 1 <= k <= 9 && k != 6
      ensures Unpack16(s, 2 * k) == 0
    {
      WordAt(TRAILER, k - 1);
      assert 2 + 2 * (k - 1) == 2 * k;
    }
  }
}
