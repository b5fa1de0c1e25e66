/** The NV image of tools/modemgen.py: four bytes, then records of id, size and data.
    `nvbin_extract` steps over records padded to four bytes, `nvdata_modify` over unpadded
    ones; the theorems say exactly when that difference matters and what a patch, and a
    whole delta file, does when it does not. */
module Nv {
  import opened Bytes
  import opened Layout
  import opened Arith

  const END_ID: nat := 0xFFFF

  /** Where a walk for an id ends; `Truncated` is the exception `struct.unpack` raises. */
  datatype Lookup = At(pos: nat) | Missing | Truncated

  function Pad4(n: nat): (r: nat)
    ensures n <= r < n + 4
  {
    (n + 3) / 4 * 4
  }

  function IdAt(nv: seq<byte>, pos: nat): nat
    requires pos + 4 <= |nv|
  {
    Unpack16(nv, pos)
  }

  function SizeAt(nv: seq<byte>, pos: nat): nat
    requires pos + 4 <= |nv|
  {
    Unpack16(nv, pos + 2)
  }

  /** A header can be read at `pos` and does not end the list. */
  predicate RecordAt(nv: seq<byte>, pos: nat) {
    pos + 4 <= |nv| && IdAt(nv, pos) != END_ID
  }

  /** The walk of `nvbin_extract`. */
  function FindPadded(nv: seq<byte>, id: nat, pos: nat): (r: Lookup)
    ensures r.At? ==> pos <= r.pos && RecordAt(nv, r.pos) && IdAt(nv, r.pos) == id
    decreases |nv| - pos
  {
    if pos >= |nv| then Missing
    else if pos + 4 > |nv| then Truncated
    else if IdAt(nv, pos) == END_ID then Missing
    else if IdAt(nv, pos) == id then At(pos)
    else FindPadded(nv, id, pos + 4 + Pad4(SizeAt(nv, pos)))
  }

  /** The walk of `nvdata_modify`. */
  function FindPacked(nv: seq<byte>, id: nat, pos: nat): (r: Lookup)
    ensures r.At? ==> pos <= r.pos && RecordAt(nv, r.pos) && IdAt(nv, r.pos) == id
    decreases |nv| - pos
  {
    if pos >= |nv| then Missing
    else if pos + 4 > |nv| then Truncated
    else if IdAt(nv, pos) == END_ID then Missing
    else if IdAt(nv, pos) == id then At(pos)
    else FindPacked(nv, id, pos + 4 + SizeAt(nv, pos))
  }

  // ---------------------------------------------------------------- when the two walks agree

  /** The positions a walk inspects when it finds nothing. */
  function VisitsPadded(nv: seq<byte>, pos: nat): seq<nat>
    decreases |nv| - pos
  {
    if pos >= |nv| then [] else if !RecordAt(nv, pos) then [pos]
    else [pos] + VisitsPadded(nv, pos + 4 + Pad4(SizeAt(nv, pos)))
  }

  function VisitsPacked(nv: seq<byte>, pos: nat): seq<nat>
    decreases |nv| - pos
  {
    if pos >= |nv| then [] else if !RecordAt(nv, pos) then [pos]
    else [pos] + VisitsPacked(nv, pos + 4 + SizeAt(nv, pos))
  }

  /** Every record size is a multiple of four, unless the record runs to the end of the image. */
  predicate Aligned(nv: seq<byte>, pos: nat)
    decreases |nv| - pos
  {
    RecordAt(nv, pos) && pos + 4 + SizeAt(nv, pos) < |nv| ==>
      SizeAt(nv, pos) % 4 == 0 && Aligned(nv, pos + 4 + SizeAt(nv, pos))
  }

  lemma PadOfMultiple(n: nat)
    ensures Pad4(n) == n <==> n % 4 == 0
  {
  }

  lemma FirstVisit(nv: seq<byte>, pos: nat)
    ensures pos < |nv| ==> |VisitsPadded(nv, pos)| > 0 && VisitsPadded(nv, pos)[0] == pos
    ensures pos < |nv| ==> |VisitsPacked(nv, pos)| > 0 && VisitsPacked(nv, pos)[0] == pos
    ensures pos >= |nv| ==> VisitsPadded(nv, pos) == [] == VisitsPacked(nv, pos)
  {
  }

  /** The two walkers inspect the same positions exactly on aligned images. */
  lemma {:induction false} WalksAgreeIff(nv: seq<byte>, pos: nat)
    ensures VisitsPadded(nv, pos) == VisitsPacked(nv, pos) <==> Aligned(nv, pos)
    decreases |nv| - pos
  {
    hide IdAt, SizeAt, Pad4;
    if RecordAt(nv, pos) {
      var size := SizeAt(nv, pos);
      var a, b := pos + 4 + Pad4(size), pos + 4 + size;
      PadOfMultiple(size);
      FirstVisit(nv, a);
      FirstVisit(nv, b);
      var va, vb := VisitsPadded(nv, a), VisitsPacked(nv, b);
      assert VisitsPadded(nv, pos) == [pos] + va && VisitsPacked(nv, pos) == [pos] + vb;
      assert ([pos] + va)[1..] == va && ([pos] + vb)[1..] == vb;
      if a == b {
        WalksAgreeIff(nv, a);
      } else if b < |nv| {
        assert vb[0] == b;
        assert |va| > 0 ==> va[0] == a;
      }
    }
  }

  lemma {:induction false} WalksFindTheSame(nv: seq<byte>, id: nat, pos: nat)
    requires Aligned(nv, pos)
    ensures FindPadded(nv, id, pos) == FindPacked(nv, id, pos)
    decreases |nv| - pos
  {
    if RecordAt(nv, pos) && IdAt(nv, pos) != id {
      var size := SizeAt(nv, pos);
      PadOfMultiple(size);
      if pos + 4 + size < |nv| {
        WalksFindTheSame(nv, id, pos + 4 + size);
      }
    }
  }

  /** A one-byte record padded with 0xff hides everything behind it from the patcher. */
  lemma WalksCanDisagree()
    ensures var nv: seq<byte> := [0, 0, 0, 0, 1, 0, 1, 0, 65, 255, 255, 255, 2, 0, 4, 0, 1, 2, 3, 4];
            FindPadded(nv, 2, 4) == At(12) && FindPacked(nv, 2, 4) == Missing
  {
    var nv: seq<byte> := [0, 0, 0, 0, 1, 0, 1, 0, 65, 255, 255, 255, 2, 0, 4, 0, 1, 2, 3, 4];
    assert IdAt(nv, 4) == 1 && SizeAt(nv, 4) == 1;
    assert IdAt(nv, 9) == END_ID && IdAt(nv, 12) == 2;
    assert FindPadded(nv, 2, 12) == At(12) && FindPacked(nv, 2, 9) == Missing;
  }

  // ---------------------------------------------------------------- reading and patching

  /** A Python slice: bounds beyond the end are clipped. */
  function Slice(s: seq<byte>, from: nat, to: nat): seq<byte> {
    if from >= |s| || to <= from then [] else if to > |s| then s[from..] else s[from..to]
  }

  /** Python slice assignment `s[from:to] = v`. */
  function SliceAssign(s: seq<byte>, from: nat, to: nat, v: seq<byte>): seq<byte>
    requires from <= to
  {
    if from >= |s| then s + v else if to > |s| then s[..from] + v else s[..from] + v + s[to..]
  }

  /** Both, place by place: bounds behind the end are moved to it. */
  lemma SliceBytes(s: seq<byte>, from: nat, to: nat, i: nat)
    ensures |Slice(s, from, to)| == if from < to && from < |s| then Min(to, |s|) - from else 0
    ensures i < |Slice(s, from, to)| ==> Slice(s, from, to)[i] == s[from + i]
  {
  }

  lemma AssignedBytes(s: seq<byte>, from: nat, to: nat, v: seq<byte>, i: nat)
    requires from <= to
    ensures var r, a, b := SliceAssign(s, from, to, v), Min(from, |s|), Min(to, |s|);
            && |r| == |s| - (b - a) + |v|
            && (i < |r| ==> r[i] == if i < a then s[i] else if i < a + |v| then v[i - a] else s[i - |v| + (b - a)])
  {
  }

  datatype Extracted = Data(bytes: seq<byte>) | NotFound | Raised

  /** What `nvbin_extract` writes out. */
  function Extract(nv: seq<byte>, id: nat): Extracted {
    match FindPadded(nv, id, 4)
    case At(p) => Data(Slice(nv, p + 4, p + 4 + SizeAt(nv, p)))
    case Missing => NotFound
    case Truncated => Raised
  }

  datatype Patch = Patch(id: nat, offset: nat, data: seq<byte>)

  /** `nvdata_modify`: whether it returned normally, and the image it left. */
  function ModifyAt(nv: seq<byte>, id: nat, offset: nat, dlen: nat, ddata: seq<byte>): (bool, seq<byte>) {
    match FindPacked(nv, id, 4)
    case At(pos) => (true, SliceAssign(nv, pos + 4 + offset, pos + 4 + offset + dlen, ddata))
    case _ => (false, nv)
  }

  function Modify(nv: seq<byte>, p: Patch): (bool, seq<byte>) {
    ModifyAt(nv, p.id, p.offset, |p.data|, p.data)
  }

  /** The image a caller may patch: the two walks agree on it. */
  predicate Sound(nv: seq<byte>) {
    Aligned(nv, 4)
  }

  /** The patch names a record and stays inside it and inside the image; the last record may
      promise more bytes than the image holds. */
  predicate InBounds(nv: seq<byte>, p: Patch) {
    && FindPadded(nv, p.id, 4).At?
    && var pos := FindPadded(nv, p.id, 4).pos;
       p.offset + |p.data| <= SizeAt(nv, pos) && pos + 4 + p.offset + |p.data| <= |nv|
  }

  /** `t` is `s` outside the bytes from `from` to `to`. */
  predicate SameOutside(s: seq<byte>, t: seq<byte>, from: nat, to: nat) {
    from <= to <= |s| == |t| && s[..from] == t[..from] && s[to..] == t[to..]
  }

  lemma SameElsewhere(s: seq<byte>, t: seq<byte>, from: nat, to: nat, i: nat)
    requires SameOutside(s, t, from, to) && i < |s| && (i < from || to <= i)
    ensures s[i] == t[i]
  {
    if i < from {
      assert s[i] == s[..from][i] && t[i] == t[..from][i];
    } else {
      assert s[i] == s[to..][i - to] && t[i] == t[to..][i - to];
    }
  }

  /** A header outside the changed bytes reads the same. */
  lemma SameHeader(s: seq<byte>, t: seq<byte>, from: nat, to: nat, pos: nat)
    requires SameOutside(s, t, from, to) && pos + 4 <= |s| && (pos + 4 <= from || to <= pos)
    ensures IdAt(s, pos) == IdAt(t, pos) && SizeAt(s, pos) == SizeAt(t, pos)
  {
    hide Unpack16;
    forall i | pos <= i < pos + 4
      ensures s[i] == t[i]
    {
      SameElsewhere(s, t, from, to, i);
    }
    SameField16(s, t, pos);
    SameField16(s, t, pos + 2);
  }

  /** Behind the changed bytes nothing about the image has changed. */
  lemma {:induction false} SameBehind(s: seq<byte>, t: seq<byte>, from: nat, to: nat, pos: nat, id: nat)
    requires SameOutside(s, t, from, to) && to <= pos
    ensures FindPadded(s, id, pos) == FindPadded(t, id, pos)
    ensures Aligned(s, pos) == Aligned(t, pos)
    decreases |s| - pos
  {
    hide IdAt, SizeAt, Pad4;
    if pos + 4 <= |s| {
      SameHeader(s, t, from, to, pos);
      if RecordAt(s, pos) {
        SameBehind(s, t, from, to, pos + 4 + Pad4(SizeAt(s, pos)), id);
        SameBehind(s, t, from, to, pos + 4 + SizeAt(s, pos), id);
      }
    }
  }

  /** Changing bytes inside one record's data leaves every walk as it was. */
  lemma {:induction false} SameWalk(s: seq<byte>, t: seq<byte>, from: nat, to: nat, pos: nat, own: nat, id: nat)
    requires SameOutside(s, t, from, to) && FindPadded(s, own, pos).At?
    requires var p := FindPadded(s, own, pos).pos; p + 4 <= from && to <= p + 4 + SizeAt(s, p)
    requires Aligned(s, pos)
    ensures FindPadded(s, id, pos) == FindPadded(t, id, pos)
    ensures Aligned(t, pos)
    decreases |s| - pos
  {
    hide IdAt, SizeAt, Pad4, SameOutside;
    var size := SizeAt(s, pos);
    SameHeader(s, t, from, to, pos);
    assert |s| == |t| by { SameLength(s, t, from, to); }
    PadOfMultiple(size);
    if IdAt(s, pos) == own {
      SameBehind(s, t, from, to, pos + 4 + Pad4(size), id);
      SameBehind(s, t, from, to, pos + 4 + size, id);
    } else {
      SameWalk(s, t, from, to, pos + 4 + Pad4(size), own, id);
    }
  }

  lemma SameLength(s: seq<byte>, t: seq<byte>, from: nat, to: nat)
    requires SameOutside(s, t, from, to)
    ensures |s| == |t|
  {
  }

  /** Records found by one walk do not overlap. */
  lemma {:induction false} RecordsDisjoint(nv: seq<byte>, a: nat, b: nat, pos: nat)
    requires FindPadded(nv, a, pos).At? && FindPadded(nv, b, pos).At? && a != b
    ensures var p, q := FindPadded(nv, a, pos).pos, FindPadded(nv, b, pos).pos;
            p + 4 + SizeAt(nv, p) <= q || q + 4 + SizeAt(nv, q) <= p
    decreases |nv| - pos
  {
    hide IdAt, SizeAt, Pad4;
    if IdAt(nv, pos) != a && IdAt(nv, pos) != b {
      RecordsDisjoint(nv, a, b, pos + 4 + Pad4(SizeAt(nv, pos)));
    }
  }

  /** Where a patch goes. */
  function PatchStart(nv: seq<byte>, p: Patch): nat
    requires InBounds(nv, p)
  {
    FindPadded(nv, p.id, 4).pos + 4 + p.offset
  }

  /** An in-bounds patch of a sound image succeeds and replaces just its bytes; no record
      moves, so the image stays sound and every patch in bounds before is in bounds after. */
  lemma PatchKeepsLayout(nv: seq<byte>, p: Patch)
    requires Sound(nv) && InBounds(nv, p)
    ensures var (ok, t) := Modify(nv, p);
            var from := PatchStart(nv, p);
            && ok && SameOutside(nv, t, from, from + |p.data|) && t[from..from + |p.data|] == p.data && Sound(t)
            && forall id :: FindPadded(t, id, 4) == FindPadded(nv, id, 4)
  {
    hide FindPadded, FindPacked, Aligned, SizeAt;
    var (ok, t) := Modify(nv, p);
    var from := PatchStart(nv, p);
    var to := from + |p.data|;
    WalksFindTheSame(nv, p.id, 4);
    assert t == nv[..from] + p.data + nv[to..];
    assert SameOutside(nv, t, from, to);
    SameWalk(nv, t, from, to, 4, p.id, p.id);
    forall id
      ensures FindPadded(t, id, 4) == FindPadded(nv, id, 4)
    {
      SameWalk(nv, t, from, to, 4, p.id, id);
    }
  }

  /** The record with the patch written over it. */
  function Overwritten(r: seq<byte>, p: Patch): seq<byte>
    requires p.offset + |p.data| <= |r|
  {
    r[..p.offset] + p.data + r[p.offset + |p.data|..]
  }

  /** Read over write: in the patched record just the patched bytes are replaced ... */
  lemma ExtractPatched(nv: seq<byte>, p: Patch)
    requires Sound(nv) && InBounds(nv, p)
    ensures Extract(nv, p.id).Data? && |Extract(nv, p.id).bytes| >= p.offset + |p.data|
    ensures Extract(Modify(nv, p).1, p.id) == Data(Overwritten(Extract(nv, p.id).bytes, p))
  {
    hide FindPadded, FindPacked, Sound, SizeAt, Modify, Slice;
    var t := Modify(nv, p).1;
    var from := PatchStart(nv, p);
    var pos := FindPadded(nv, p.id, 4).pos;
    PatchKeepsLayout(nv, p);
    SameHeader(nv, t, from, from + |p.data|, pos);
    SplicedRecord(nv, t, p, pos + 4, pos + 4 + SizeAt(nv, pos));
  }

  /** ... and every other record reads as before, found or not. */
  lemma ExtractOther(nv: seq<byte>, p: Patch, id: nat)
    requires Sound(nv) && InBounds(nv, p) && id != p.id
    ensures Extract(Modify(nv, p).1, id) == Extract(nv, id)
  {
    hide FindPadded, FindPacked, Sound, SizeAt, Modify, Slice;
    var t := Modify(nv, p).1;
    var from := PatchStart(nv, p);
    PatchKeepsLayout(nv, p);
    if FindPadded(nv, id, 4).At? {
      var pos := FindPadded(nv, id, 4).pos;
      RecordsDisjoint(nv, id, p.id, 4);
      SameHeader(nv, t, from, from + |p.data|, pos);
      SameSlice(nv, t, from, from + |p.data|, pos + 4, pos + 4 + SizeAt(nv, pos));
    }
  }

  /** A patch in bounds stays in bounds after any other. */
  lemma StaysInBounds(nv: seq<byte>, p: Patch, q: Patch)
    requires Sound(nv) && InBounds(nv, p) && InBounds(nv, q)
    ensures InBounds(Modify(nv, p).1, q)
  {
    hide FindPadded, FindPacked, Sound, SizeAt, Modify;
    var t := Modify(nv, p).1;
    var from := PatchStart(nv, p);
    PatchKeepsLayout(nv, p);
    if q.id != p.id {
      RecordsDisjoint(nv, q.id, p.id, 4);
    }
    SameHeader(nv, t, from, from + |p.data|, FindPadded(nv, q.id, 4).pos);
  }

  lemma SameSlice(s: seq<byte>, t: seq<byte>, from: nat, to: nat, a: nat, b: nat)
    requires SameOutside(s, t, from, to) && (b <= from || to <= a)
    ensures Slice(s, a, b) == Slice(t, a, b)
  {
    forall i | a <= i < b && i < |s|
      ensures s[i] == t[i]
    {
      SameElsewhere(s, t, from, to, i);
    }
  }

  lemma SplicedRecord(s: seq<byte>, t: seq<byte>, p: Patch, a: nat, b: nat)
    requires a <= |s| && a + p.offset + |p.data| <= b && SameOutside(s, t, a + p.offset, a + p.offset + |p.data|)
    requires t[a + p.offset..a + p.offset + |p.data|] == p.data
    ensures |Slice(s, a, b)| >= p.offset + |p.data| && Slice(t, a, b) == Overwritten(Slice(s, a, b), p)
  {
    hide SameOutside, Overwritten, Slice;
    var end := if b < |s| then b else |s|;
    InsideBoth(s, t, a + p.offset, a + p.offset + |p.data|);
    SliceIs(s, a, b, end);
    SliceIs(t, a, b, end);
    RecordParts(s, t, p, a, end);
    Spliced(s[a..end], t[a..end], p);
  }

  lemma SliceIs(s: seq<byte>, a: nat, b: nat, end: nat)
    requires a <= b && a <= |s| && end == if b < |s| then b else |s|
    ensures Slice(s, a, b) == s[a..end]
  {
  }

  lemma InsideBoth(s: seq<byte>, t: seq<byte>, from: nat, to: nat)
    requires SameOutside(s, t, from, to)
    ensures from <= to <= |s| == |t|
  {
  }

  /** The record before, inside and behind the patched bytes. */
  lemma RecordParts(s: seq<byte>, t: seq<byte>, p: Patch, a: nat, end: nat)
    requires a + p.offset + |p.data| <= end <= |s| && SameOutside(s, t, a + p.offset, a + p.offset + |p.data|)
    requires t[a + p.offset..a + p.offset + |p.data|] == p.data
    ensures var u, v, to := s[a..end], t[a..end], p.offset + |p.data|;
            u[..p.offset] == v[..p.offset] && v[p.offset..to] == p.data && u[to..] == v[to..]
  {
    var from, to := a + p.offset, a + p.offset + |p.data|;
    SameSlice(s, t, from, to, a, from);
    SameSlice(s, t, from, to, to, end);
    hide SameOutside;
    SubSlice(s, a, end, 0, p.offset);
    SubSlice(t, a, end, 0, p.offset);
    SubSlice(t, a, end, p.offset, p.offset + |p.data|);
    SubSlice(s, a, end, p.offset + |p.data|, end - a);
    SubSlice(t, a, end, p.offset + |p.data|, end - a);
  }

  lemma Spliced(u: seq<byte>, v: seq<byte>, p: Patch)
    requires |u| == |v| && p.offset + |p.data| <= |u|
    requires var to := p.offset + |p.data|;
             u[..p.offset] == v[..p.offset] && v[p.offset..to] == p.data && u[to..] == v[to..]
    ensures v == Overwritten(u, p)
  {
    var to := p.offset + |p.data|;
    assert v == v[..p.offset] + v[p.offset..to] + v[to..];
  }
}
