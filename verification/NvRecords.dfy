/** What the two NV walkers do on an image built from a list of records: `nvbin_extract` on one
    whose records are padded to four bytes, `nvdata_modify` on one whose records are not. */
module NvRecords {
  import opened Bytes
  import opened Layout
  import opened Nv

  /** A record and the bytes that pad it. */
  datatype Record = Record(id: nat, data: seq<byte>, pad: seq<byte>)

  predicate Fits(r: Record) {
    r.id < 0xFFFF && |r.data| < 0x1_0000
  }

  /** Padded to four bytes, and not padded at all. */
  predicate Padded(r: Record) {
    |r.pad| < 4 && (|r.data| + |r.pad|) % 4 == 0
  }

  predicate Packed(r: Record) {
    r.pad == []
  }

  predicate AllFit(rs: seq<Record>) {
    forall k :: 0 <= k < |rs| ==> Fits(rs[k])
  }

  predicate AllPadded(rs: seq<Record>) {
    forall k :: 0 <= k < |rs| ==> Padded(rs[k])
  }

  predicate AllPacked(rs: seq<Record>) {
    forall k :: 0 <= k < |rs| ==> Packed(rs[k])
  }

  /** Id and size, low byte first, then the data and its padding. */
  function RecordBytes(r: Record): (s: seq<byte>)
    requires Fits(r)
    ensures |s| == 4 + |r.data| + |r.pad|
  {
    Pack16(r.id) + Pack16(|r.data|) + r.data + r.pad
  }

  function Laid(rs: seq<Record>): seq<byte>
    requires AllFit(rs)
  {
    if rs == [] then [] else RecordBytes(rs[0]) + Laid(rs[1..])
  }

  /** What may stand behind the last record: nothing, or the id 0xffff. */
  predicate Ends(tail: seq<byte>) {
    tail == [] || (|tail| >= 4 && tail[0] == 0xFF && tail[1] == 0xFF)
  }

  /** The number of the first record with an id, or of records when there is none. */
  function FirstWith(rs: seq<Record>, id: nat): (k: nat)
    ensures k <= |rs| && (k < |rs| ==> rs[k].id == id) && forall j :: 0 <= j < k ==> rs[j].id != id
  {
    if rs == [] || rs[0].id == id then 0 else 1 + FirstWith(rs[1..], id)
  }

  // ---------------------------------------------------------------- one record

  lemma PadLength(r: Record)
    requires Padded(r)
    ensures Pad4(|r.data|) == |r.data| + |r.pad|
  {
  }

  lemma EndMark(nv: seq<byte>, pos: nat, tail: seq<byte>)
    requires pos <= |nv| && nv[pos..] == tail && Ends(tail)
    ensures pos == |nv| || (pos + 4 <= |nv| && IdAt(nv, pos) == END_ID)
  {
    if tail != [] {
      assert nv[pos] == nv[pos..][0] && nv[pos + 1] == nv[pos..][1];
    }
  }

  /** The first record where its bytes stand. */
  lemma RecordHere(nv: seq<byte>, pos: nat, r: Record, rest: seq<byte>)
    requires Fits(r) && pos <= |nv| && nv[pos..] == RecordBytes(r) + rest
    ensures pos + 4 + |r.data| + |r.pad| <= |nv| && IdAt(nv, pos) == r.id && SizeAt(nv, pos) == |r.data|
    ensures nv[pos + 4..pos + 4 + |r.data|] == r.data
    ensures nv[pos + 4 + |r.data| + |r.pad|..] == rest
  {
    hide Pack16, Unpack16;
    var s, n := nv[pos..], 4 + |r.data|;
    assert s[..2] == Pack16(r.id) && s[2..4] == Pack16(|r.data|);
    assert s[4..n] == r.data && s[n + |r.pad|..] == rest;
    SubSlice(nv, pos, |nv|, 0, 2);
    SubSlice(nv, pos, |nv|, 2, 4);
    SubSlice(nv, pos, |nv|, 4, n);
    SubSlice(nv, pos, |nv|, n + |r.pad|, |nv| - pos);
    assert nv[pos..|nv|] == s;
    assert nv[pos + n + |r.pad|..|nv|] == nv[pos + n + |r.pad|..];
    Field16(nv, pos, r.id);
    Field16(nv, pos + 2, |r.data|);
  }

  lemma LaidHead(rs: seq<Record>, tail: seq<byte>)
    requires AllFit(rs) && rs != []
    ensures Laid(rs) + tail == RecordBytes(rs[0]) + (Laid(rs[1..]) + tail)
  {
    hide RecordBytes;
  }

  // ---------------------------------------------------------------- extracting

  /** Where record `k` begins. */
  function RecordStart(rs: seq<Record>, k: nat): nat
    requires k <= |rs|
  {
    if k == 0 then 0 else 4 + |rs[0].data| + |rs[0].pad| + RecordStart(rs[1..], k - 1)
  }

  /** The record `r` stands at `p`. */
  predicate Holds(nv: seq<byte>, p: nat, r: Record) {
    p + 4 + |r.data| <= |nv| && SizeAt(nv, p) == |r.data| && nv[p + 4..p + 4 + |r.data|] == r.data
  }

  /** The padded walk past one record, and at the end. */
  lemma PaddedStep(nv: seq<byte>, pos: nat, r: Record, rest: seq<byte>, id: nat)
    requires Fits(r) && Padded(r) && pos <= |nv| && nv[pos..] == RecordBytes(r) + rest
    ensures var next := pos + 4 + |r.data| + |r.pad|;
            && next <= |nv| && nv[next..] == rest && Holds(nv, pos, r)
            && FindPadded(nv, id, pos) == if r.id == id then At(pos) else FindPadded(nv, id, next)
  {
    hide IdAt, SizeAt, Pad4, RecordBytes;
    RecordHere(nv, pos, r, rest);
    PadLength(r);
  }

  lemma PaddedEnd(nv: seq<byte>, pos: nat, tail: seq<byte>, id: nat)
    requires pos <= |nv| && nv[pos..] == tail && Ends(tail)
    ensures FindPadded(nv, id, pos) == Missing
  {
    hide IdAt;
    EndMark(nv, pos, tail);
  }

  lemma {:induction false} FindPaddedLaid(nv: seq<byte>, pos: nat, rs: seq<Record>, tail: seq<byte>, id: nat)
    requires AllFit(rs) && AllPadded(rs) && Ends(tail) && pos <= |nv| && nv[pos..] == Laid(rs) + tail && id < 0xFFFF
    ensures var k := FirstWith(rs, id);
            && (k == |rs| ==> FindPadded(nv, id, pos) == Missing)
            && (k < |rs| ==> var p := pos + RecordStart(rs, k); FindPadded(nv, id, pos) == At(p) && Holds(nv, p, rs[k]))
    decreases |rs|
  {
    hide FindPadded, RecordBytes, Holds, Ends, Laid, Fits, Padded;
    if rs == [] {
      NothingLaid(tail);
      PaddedEnd(nv, pos, tail, id);
    } else {
      var r, rest := rs[0], rs[1..];
      LaidHead(rs, tail);
      PaddedStep(nv, pos, r, Laid(rest) + tail, id);
      if r.id != id {
        FindPaddedLaid(nv, pos + 4 + |r.data| + |r.pad|, rest, tail, id);
      }
    }
  }

  lemma NothingLaid(tail: seq<byte>)
    ensures Laid([]) + tail == tail
  {
  }

  /** Extraction yields the data of the first record with the id, of any size, or finds nothing. */
  lemma ExtractLaid(head: seq<byte>, rs: seq<Record>, tail: seq<byte>, id: nat)
    requires |head| == 4 && AllFit(rs) && AllPadded(rs) && Ends(tail) && id < 0xFFFF
    ensures Extract(head + Laid(rs) + tail, id) ==
            var k := FirstWith(rs, id);
            if k < |rs| then Data(rs[k].data) else NotFound
  {
    hide SizeAt, FindPadded, Laid;
    var nv := head + Laid(rs) + tail;
    assert nv[4..] == Laid(rs) + tail;
    FindPaddedLaid(nv, 4, rs, tail, id);
  }

  // ---------------------------------------------------------------- patching

  lemma {:induction false} FindPackedLaid(nv: seq<byte>, pos: nat, rs: seq<Record>, tail: seq<byte>, id: nat)
    requires AllFit(rs) && AllPacked(rs) && Ends(tail) && pos <= |nv| && nv[pos..] == Laid(rs) + tail && id < 0xFFFF
    ensures var k := FirstWith(rs, id);
            && (k == |rs| ==> FindPacked(nv, id, pos) == Missing)
            && (k < |rs| ==> FindPacked(nv, id, pos) == At(pos + RecordStart(rs, k)))
    decreases |rs|
  {
    hide IdAt, SizeAt, RecordBytes;
    if rs == [] {
      assert nv[pos..] == tail;
      EndMark(nv, pos, tail);
    } else {
      var r, rest := rs[0], rs[1..];
      LaidHead(rs, tail);
      RecordHere(nv, pos, r, Laid(rest) + tail);
      if r.id != id {
        FindPackedLaid(nv, pos + 4 + |r.data| + |r.pad|, rest, tail, id);
      }
    }
  }

  /** The record with `data` written at `offset`. */
  function Patched(r: Record, offset: nat, data: seq<byte>): (q: Record)
    requires offset + |data| <= |r.data|
    ensures q.id == r.id && |q.data| == |r.data| && q.pad == r.pad
    ensures forall i :: 0 <= i < |r.data| ==>
      q.data[i] == if offset <= i < offset + |data| then data[i - offset] else r.data[i]
  {
    r.(data := r.data[..offset] + data + r.data[offset + |data|..])
  }

  lemma SpliceRecord(r: Record, offset: nat, data: seq<byte>)
    requires Fits(r) && offset + |data| <= |r.data|
    ensures Fits(Patched(r, offset, data))
    ensures var s, from := RecordBytes(r), 4 + offset;
            RecordBytes(Patched(r, offset, data)) == s[..from] + data + s[from + |data|..]
  {
    hide Pack16;
    var q, s, from := Patched(r, offset, data), RecordBytes(r), 4 + offset;
    assert s[..from] == Pack16(r.id) + Pack16(|r.data|) + r.data[..offset];
    assert s[from + |data|..] == r.data[offset + |data|..] + r.pad;
  }

  lemma {:induction false} SpliceLaid(rs: seq<Record>, k: nat, offset: nat, data: seq<byte>)
    requires AllFit(rs) && k < |rs| && offset + |data| <= |rs[k].data|
    ensures var ts := rs[k := Patched(rs[k], offset, data)];
            var s, from := Laid(rs), RecordStart(rs, k) + 4 + offset;
            && AllFit(ts) && from + |data| <= |s| && Laid(ts) == s[..from] + data + s[from + |data|..]
    decreases |rs|
  {
    hide RecordBytes, Patched, Laid;
    var r, rest, a := rs[0], rs[1..], RecordBytes(rs[0]);
    var q := Patched(rs[k], offset, data);
    var ts := rs[k := q];
    LaidOf(rs);
    if k == 0 {
      SpliceRecord(r, offset, data);
      assert ts[1..] == rest;
      LaidOf(ts);
      SpliceFirst(a, Laid(rest), 4 + offset, data);
    } else {
      SpliceLaid(rest, k - 1, offset, data);
      assert ts[1..] == rest[k - 1 := q];
      LaidOf(ts);
      SpliceSecond(a, Laid(rest), RecordStart(rest, k - 1) + 4 + offset, data);
    }
  }

  lemma LaidOf(rs: seq<Record>)
    requires rs != [] && Fits(rs[0]) && AllFit(rs[1..])
    ensures AllFit(rs) && Laid(rs) == RecordBytes(rs[0]) + Laid(rs[1..])
  {
    hide RecordBytes, Fits;
    forall k | 0 <= k < |rs|
      ensures Fits(rs[k])
    {
      if k > 0 {
        assert rs[k] == rs[1..][k - 1];
      }
    }
  }

  lemma SpliceFirst(a: seq<byte>, b: seq<byte>, from: nat, data: seq<byte>)
    requires from + |data| <= |a|
    ensures (a[..from] + data + a[from + |data|..]) + b == (a + b)[..from] + data + (a + b)[from + |data|..]
  {
  }

  lemma SpliceSecond(a: seq<byte>, b: seq<byte>, from: nat, data: seq<byte>)
    requires from + |data| <= |b|
    ensures a + (b[..from] + data + b[from + |data|..]) ==
            (a + b)[..|a| + from] + data + (a + b)[|a| + from + |data|..]
  {
  }

  /** A patch inside the first record with its id changes just those bytes of just that record;
      without such a record nothing changes and the tool raises. */
  lemma ModifyLaid(head: seq<byte>, rs: seq<Record>, tail: seq<byte>, p: Patch)
    requires |head| == 4 && AllFit(rs) && AllPacked(rs) && Ends(tail) && p.id < 0xFFFF
    ensures var nv, k := head + Laid(rs) + tail, FirstWith(rs, p.id);
            && (k == |rs| ==> Modify(nv, p) == (false, nv))
            && (k < |rs| && p.offset + |p.data| <= |rs[k].data| ==>
                  var ts := rs[k := Patched(rs[k], p.offset, p.data)];
                  AllFit(ts) && Modify(nv, p) == (true, head + Laid(ts) + tail))
  {
    hide FindPacked, Laid, RecordBytes, Patched;
    var nv, k := head + Laid(rs) + tail, FirstWith(rs, p.id);
    assert nv[4..] == Laid(rs) + tail;
    FindPackedLaid(nv, 4, rs, tail, p.id);
    if k < |rs| && p.offset + |p.data| <= |rs[k].data| {
      SpliceLaid(rs, k, p.offset, p.data);
      var from := RecordStart(rs, k) + 4 + p.offset;
      SpliceSecond(head, Laid(rs), from, p.data);
      SpliceFirst(head + Laid(rs), tail, 4 + from, p.data);
    }
  }

  // ---------------------------------------------------------------- records that need no padding

  /** On an image whose records are padded by nothing and to four bytes at once the walks agree. */
  lemma {:induction false} LaidIsAligned(nv: seq<byte>, pos: nat, rs: seq<Record>, tail: seq<byte>)
    requires AllFit(rs) && AllPadded(rs) && AllPacked(rs) && Ends(tail) && pos <= |nv| && nv[pos..] == Laid(rs) + tail
    ensures Aligned(nv, pos)
    decreases |rs|
  {
    hide IdAt, SizeAt, RecordBytes;
    if rs == [] {
      assert nv[pos..] == tail;
      EndMark(nv, pos, tail);
    } else {
      LaidHead(rs, tail);
      RecordHere(nv, pos, rs[0], Laid(rs[1..]) + tail);
      LaidIsAligned(nv, pos + 4 + |rs[0].data|, rs[1..], tail);
    }
  }

  /** So it may be patched, and a patch is in bounds exactly when it lies in its record. */
  lemma PatchableLaid(head: seq<byte>, rs: seq<Record>, tail: seq<byte>, p: Patch)
    requires |head| == 4 && AllFit(rs) && AllPadded(rs) && AllPacked(rs) && Ends(tail) && p.id < 0xFFFF
    ensures var nv, k := head + Laid(rs) + tail, FirstWith(rs, p.id);
            Sound(nv) && (InBounds(nv, p) <==> k < |rs| && p.offset + |p.data| <= |rs[k].data|)
  {
    hide FindPadded, Laid, SizeAt, Aligned;
    var nv := head + Laid(rs) + tail;
    assert nv[4..] == Laid(rs) + tail;
    LaidIsAligned(nv, 4, rs, tail);
    FindPaddedLaid(nv, 4, rs, tail, p.id);
  }
}
