/** Delta files (`nvbin_apply_delta`): bulks of patches, applied in file order. */
module NvDelta {
  import opened Bytes
  import opened Layout
  import opened Nv

  // ---------------------------------------------------------------- a list of patches

  /** Patches applied in order; the first that names no record stops the run. */
  function ApplyAll(nv: seq<byte>, ps: seq<Patch>): (bool, seq<byte>)
    decreases |ps|
  {
    if ps == [] then (true, nv)
    else
      var (ok, t) := Modify(nv, ps[0]);
      if ok then ApplyAll(t, ps[1..]) else (false, t)
  }

  predicate Covers(p: Patch, id: nat, j: nat) {
    p.id == id && p.offset <= j < p.offset + |p.data|
  }

  /** The value last written to byte `j` of record `id`, or `b` when none was. */
  function LastWritten(ps: seq<Patch>, id: nat, j: nat, b: byte): byte
    decreases |ps|
  {
    if ps == [] then b
    else if Covers(ps[|ps| - 1], id, j) then ps[|ps| - 1].data[j - ps[|ps| - 1].offset]
    else LastWritten(ps[..|ps| - 1], id, j, b)
  }

  lemma {:induction false} LastWrittenByFirst(ps: seq<Patch>, id: nat, j: nat, b: byte)
    requires ps != []
    ensures LastWritten(ps, id, j, b) ==
            LastWritten(ps[1..], id, j, if Covers(ps[0], id, j) then ps[0].data[j - ps[0].offset] else b)
    decreases |ps|
  {
    if |ps| > 1 {
      LastWrittenByFirst(ps[..|ps| - 1], id, j, b);
      assert ps[..|ps| - 1][1..] == ps[1..][..|ps| - 2];
    }
  }

  /** It is the data of the last patch that covers the byte, if any does. */
  lemma {:induction false} LastWrittenIsLastCover(ps: seq<Patch>, id: nat, j: nat, b: byte, k: nat)
    requires k <= |ps| && forall l :: k <= l < |ps| ==> !Covers(ps[l], id, j)
    requires k > 0 ==> Covers(ps[k - 1], id, j)
    ensures LastWritten(ps, id, j, b) == if k == 0 then b else ps[k - 1].data[j - ps[k - 1].offset]
    decreases |ps|
  {
    if k < |ps| {
      LastWrittenIsLastCover(ps[..|ps| - 1], id, j, b, k);
    }
  }

  lemma OnePatch(nv: seq<byte>, p: Patch, id: nat, j: nat)
    requires Sound(nv) && InBounds(nv, p) && Extract(nv, id).Data? && j < |Extract(nv, id).bytes|
    ensures var t := Modify(nv, p).1;
            && Extract(t, id).Data? && |Extract(t, id).bytes| == |Extract(nv, id).bytes|
            && Extract(t, id).bytes[j] ==
               if Covers(p, id, j) then p.data[j - p.offset] else Extract(nv, id).bytes[j]
  {
    hide Sound, InBounds, Extract, Modify;
    if id == p.id {
      ExtractPatched(nv, p);
    } else {
      ExtractOther(nv, p, id);
    }
  }

  /** A whole list of in-bounds patches succeeds, keeps the layout, and leaves in every byte
      of every record the value last written to it. */
  lemma {:induction false} LastWriterWins(nv: seq<byte>, ps: seq<Patch>, id: nat, j: nat)
    requires Sound(nv) && (forall k :: 0 <= k < |ps| ==> InBounds(nv, ps[k]))
    requires Extract(nv, id).Data? && j < |Extract(nv, id).bytes|
    ensures var (ok, t) := ApplyAll(nv, ps);
            && ok && Sound(t) && |t| == |nv|
            && Extract(t, id).Data? && |Extract(t, id).bytes| == |Extract(nv, id).bytes|
            && Extract(t, id).bytes[j] == LastWritten(ps, id, j, Extract(nv, id).bytes[j])
    decreases |ps|
  {
    hide Sound, InBounds, Extract, Modify, SameOutside, FindPadded;
    if ps != [] {
      var (ok, t) := Modify(nv, ps[0]);
      PatchKeepsLayout(nv, ps[0]);
      SameLength(nv, t, PatchStart(nv, ps[0]), PatchStart(nv, ps[0]) + |ps[0].data|);
      OnePatch(nv, ps[0], id, j);
      forall k | 0 <= k < |ps[1..]|
        ensures InBounds(t, ps[1..][k])
      {
        StaysInBounds(nv, ps[0], ps[k + 1]);
      }
      LastWriterWins(t, ps[1..], id, j);
      LastWrittenByFirst(ps, id, j, Extract(nv, id).bytes[j]);
    }
  }

  // ---------------------------------------------------------------- the file format

  datatype Bulk = Bulk(name: seq<byte>, version: nat, patches: seq<Patch>)

  predicate FitsPatch(p: Patch) {
    p.id < 0x1_0000 && p.offset < 0x1_0000 && |p.data| < 0x1_0000
  }

  function PatchBytes(p: Patch): (s: seq<byte>)
    requires FitsPatch(p)
    ensures |s| == 6 + |p.data|
  {
    Pack16(p.id) + Pack16(p.offset) + Pack16(|p.data|) + p.data
  }

  predicate FitPatches(ps: seq<Patch>) {
    forall k :: 0 <= k < |ps| ==> FitsPatch(ps[k])
  }

  function PatchesBytes(ps: seq<Patch>): seq<byte>
    requires FitPatches(ps)
  {
    if ps == [] then [] else PatchBytes(ps[0]) + PatchesBytes(ps[1..])
  }

  predicate FitsBulk(b: Bulk) {
    |b.name| == 20 && b.version < 0x1_0000 && FitPatches(b.patches) && 28 + |PatchesBytes(b.patches)| < 0x1_0000_0000
  }

  /** 20-byte name, version, size of the whole bulk, patches, 0xffff. */
  function BulkBytes(b: Bulk): (s: seq<byte>)
    requires FitsBulk(b)
    ensures |s| == 28 + |PatchesBytes(b.patches)|
  {
    b.name + Pack16(b.version) + Pack32(28 + |PatchesBytes(b.patches)|) + PatchesBytes(b.patches) + [0xFF, 0xFF]
  }

  predicate FitBulks(bs: seq<Bulk>) {
    forall k :: 0 <= k < |bs| ==> FitsBulk(bs[k])
  }

  function DeltaBytes(bs: seq<Bulk>): seq<byte>
    requires FitBulks(bs)
  {
    if bs == [] then [] else BulkBytes(bs[0]) + DeltaBytes(bs[1..])
  }

  function AllPatches(bs: seq<Bulk>): seq<Patch> {
    if bs == [] then [] else bs[0].patches + AllPatches(bs[1..])
  }

  // ---------------------------------------------------------------- the nested loops

  datatype Progress = Progress(ok: bool, nv: seq<byte>, pos: nat)

  /** The inner loop from `dpos` while below `stop`. A header cut short raises. */
  function InnerLoop(nv: seq<byte>, delta: seq<byte>, dpos: nat, stop: int): (r: Progress)
    ensures r.ok ==> r.pos >= dpos
    decreases stop - dpos
  {
    if dpos >= stop then Progress(true, nv, dpos)
    else if dpos + 6 > |delta| then Progress(false, nv, dpos)
    else
      var dlen := Unpack16(delta, dpos + 4);
      var ddata := Slice(delta, dpos + 6, dpos + 6 + dlen);
      var (ok, t) := ModifyAt(nv, Unpack16(delta, dpos), Unpack16(delta, dpos + 2), dlen, ddata);
      if ok then InnerLoop(t, delta, dpos + 6 + dlen, stop) else Progress(false, t, dpos)
  }

  /** The outer loop from `pos`. */
  function OuterLoop(nv: seq<byte>, delta: seq<byte>, pos: nat): (bool, seq<byte>)
    decreases |delta| - pos
  {
    if pos + 26 >= |delta| then (true, nv)
    else
      var r := InnerLoop(nv, delta, pos + 26, pos + Unpack32(delta, pos + 22) - 2);
      if r.ok then OuterLoop(r.nv, delta, r.pos + 2) else (false, r.nv)
  }

  // ---------------------------------------------------------------- the loops on a serialised delta

  /** The four fields of a patch, read where it was written. */
  lemma ReadPatch(delta: seq<byte>, dpos: nat, p: Patch)
    requires FitsPatch(p) && dpos + 6 + |p.data| <= |delta| && delta[dpos..dpos + 6 + |p.data|] == PatchBytes(p)
    ensures Unpack16(delta, dpos) == p.id && Unpack16(delta, dpos + 2) == p.offset
    ensures Unpack16(delta, dpos + 4) == |p.data|
    ensures Slice(delta, dpos + 6, dpos + 6 + |p.data|) == p.data
  {
    hide Pack16, Unpack16;
    var s := PatchBytes(p);
    var e := dpos + 6 + |p.data|;
    assert delta[dpos..dpos + 2] == delta[dpos..e][..2] == Pack16(p.id);
    assert delta[dpos + 2..dpos + 4] == delta[dpos..e][2..4] == Pack16(p.offset);
    assert delta[dpos + 4..dpos + 6] == delta[dpos..e][4..6] == Pack16(|p.data|);
    assert delta[dpos + 6..e] == delta[dpos..e][6..] == p.data;
    Field16(delta, dpos, p.id);
    Field16(delta, dpos + 2, p.offset);
    Field16(delta, dpos + 4, |p.data|);
  }

  lemma FirstPatch(delta: seq<byte>, dpos: nat, ps: seq<Patch>)
    requires FitPatches(ps) && ps != []
    requires var stop := dpos + |PatchesBytes(ps)|; stop <= |delta| && delta[dpos..stop] == PatchesBytes(ps)
    ensures var stop, next := dpos + |PatchesBytes(ps)|, dpos + 6 + |ps[0].data|;
            && next + |PatchesBytes(ps[1..])| == stop && delta[next..stop] == PatchesBytes(ps[1..])
            && delta[dpos..next] == PatchBytes(ps[0])
  {
    hide FitsPatch, PatchBytes;
    var first, rest := PatchBytes(ps[0]), PatchesBytes(ps[1..]);
    assert PatchesBytes(ps) == first + rest;
    hide PatchesBytes;
    SplitSlice(delta, dpos, first, rest);
  }

  lemma SplitSlice(s: seq<byte>, p: nat, a: seq<byte>, b: seq<byte>)
    requires p + |a| + |b| <= |s| && s[p..p + |a| + |b|] == a + b
    ensures s[p..p + |a|] == a && s[p + |a|..p + |a| + |b|] == b
  {
    assert s[p..p + |a|] == (a + b)[..|a|];
    assert s[p + |a|..p + |a| + |b|] == (a + b)[|a|..];
  }

  lemma {:induction false} InnerLoopRuns(nv: seq<byte>, delta: seq<byte>, dpos: nat, ps: seq<Patch>)
    requires FitPatches(ps)
    requires var stop := dpos + |PatchesBytes(ps)|; stop <= |delta| && delta[dpos..stop] == PatchesBytes(ps)
    ensures var stop := dpos + |PatchesBytes(ps)|;
            var r := InnerLoop(nv, delta, dpos, stop);
            (r.ok, r.nv) == ApplyAll(nv, ps) && (r.ok ==> r.pos == stop)
    decreases |ps|
  {
    hide PatchesBytes, PatchBytes, Modify, FitsPatch, InnerLoop;
    if ps == [] {
      NoPatchBytes(nv, delta, dpos);
    } else {
      var p := ps[0];
      FirstPatch(delta, dpos, ps);
      OneRound(nv, delta, dpos, dpos + |PatchesBytes(ps)|, p);
      if Modify(nv, p).0 {
        InnerLoopRuns(Modify(nv, p).1, delta, dpos + 6 + |p.data|, ps[1..]);
      }
    }
  }

  lemma NoPatchBytes(nv: seq<byte>, delta: seq<byte>, dpos: nat)
    ensures PatchesBytes([]) == [] && InnerLoop(nv, delta, dpos, dpos) == Progress(true, nv, dpos)
  {
  }

  /** One round of the inner loop, on a patch that stands at `dpos`. */
  lemma OneRound(nv: seq<byte>, delta: seq<byte>, dpos: nat, stop: nat, p: Patch)
    requires FitsPatch(p) && dpos + 6 + |p.data| <= stop <= |delta| && delta[dpos..dpos + 6 + |p.data|] == PatchBytes(p)
    ensures var (ok, t) := Modify(nv, p);
            InnerLoop(nv, delta, dpos, stop) ==
            if ok then InnerLoop(t, delta, dpos + 6 + |p.data|, stop) else Progress(false, t, dpos)
  {
    hide Unpack16, PatchBytes, ModifyAt, FitsPatch;
    ReadPatch(delta, dpos, p);
  }

  lemma {:induction false} ApplyAllConcat(nv: seq<byte>, ps: seq<Patch>, qs: seq<Patch>)
    ensures ApplyAll(nv, ps + qs) ==
            if ApplyAll(nv, ps).0 then ApplyAll(ApplyAll(nv, ps).1, qs) else ApplyAll(nv, ps)
    decreases |ps|
  {
    hide Modify;
    if ps == [] {
      assert ps + qs == qs;
    } else {
      assert (ps + qs)[1..] == ps[1..] + qs;
      ApplyAllConcat(Modify(nv, ps[0]).1, ps[1..], qs);
    }
  }

  lemma ReadBulk(delta: seq<byte>, pos: nat, b: Bulk)
    requires FitsBulk(b) && pos + |BulkBytes(b)| <= |delta| && delta[pos..pos + |BulkBytes(b)|] == BulkBytes(b)
    ensures Unpack32(delta, pos + 22) == |BulkBytes(b)|
    ensures delta[pos + 26..pos + |BulkBytes(b)| - 2] == PatchesBytes(b.patches)
  {
    hide Pack16, Pack32, Unpack32, PatchesBytes;
    var e := pos + |BulkBytes(b)|;
    assert delta[pos + 22..pos + 26] == delta[pos..e][22..26] == Pack32(|BulkBytes(b)|);
    assert delta[pos + 26..e - 2] == delta[pos..e][26..|BulkBytes(b)| - 2] == PatchesBytes(b.patches);
    Field32(delta, pos + 22, |BulkBytes(b)|);
  }

  /** Run on a serialised list of bulks, the nested loops apply exactly its patches, in order,
      each bulk ending where the next begins. */
  lemma {:induction false} DeltaAppliesItsPatches(nv: seq<byte>, delta: seq<byte>, pos: nat, bs: seq<Bulk>)
    requires FitBulks(bs) && pos <= |delta| && delta[pos..] == DeltaBytes(bs)
    ensures OuterLoop(nv, delta, pos) == ApplyAll(nv, AllPatches(bs))
    decreases |bs|
  {
    hide DeltaBytes, Unpack32, BulkBytes, InnerLoop, ApplyAll, FitsBulk, PatchesBytes;
    if bs == [] {
      NoBulks(delta, pos);
      NoPatches(nv);
    } else {
      var b, rest := bs[0], bs[1..];
      FirstBulk(delta, pos, bs);
      OneBulk(nv, delta, pos, b);
      ApplyAllConcat(nv, b.patches, AllPatches(rest));
      if ApplyAll(nv, b.patches).0 {
        DeltaAppliesItsPatches(ApplyAll(nv, b.patches).1, delta, pos + |BulkBytes(b)|, rest);
      }
    }
  }

  lemma NoBulks(delta: seq<byte>, pos: nat)
    requires pos <= |delta| && delta[pos..] == DeltaBytes([])
    ensures pos == |delta|
  {
  }

  lemma FirstBulk(delta: seq<byte>, pos: nat, bs: seq<Bulk>)
    requires FitBulks(bs) && bs != [] && pos <= |delta| && delta[pos..] == DeltaBytes(bs)
    ensures var e := pos + |BulkBytes(bs[0])|;
            e <= |delta| && delta[pos..e] == BulkBytes(bs[0]) && delta[e..] == DeltaBytes(bs[1..])
  {
    hide BulkBytes, FitsBulk;
    var first, rest := BulkBytes(bs[0]), DeltaBytes(bs[1..]);
    assert DeltaBytes(bs) == first + rest;
    hide DeltaBytes;
    assert delta[pos..|delta|] == delta[pos..];
    SplitSlice(delta, pos, first, rest);
    assert delta[pos + |first|..|delta|] == delta[pos + |first|..];
  }

  /** One round of the outer loop, on a bulk that stands at `pos`. */
  lemma OneBulk(nv: seq<byte>, delta: seq<byte>, pos: nat, b: Bulk)
    requires FitsBulk(b) && pos + |BulkBytes(b)| <= |delta| && delta[pos..pos + |BulkBytes(b)|] == BulkBytes(b)
    ensures var r := ApplyAll(nv, b.patches);
            OuterLoop(nv, delta, pos) == if r.0 then OuterLoop(r.1, delta, pos + |BulkBytes(b)|) else r
  {
    hide Unpack32, BulkBytes, InnerLoop, ApplyAll, FitsBulk, PatchesBytes;
    BulkFits(b);
    ReadBulk(delta, pos, b);
    InnerLoopRuns(nv, delta, pos + 26, b.patches);
  }

  /** So a delta whose patches stay in bounds leaves in every byte of every record the value
      its last covering patch carries. */
  lemma DeltaLastWriterWins(nv: seq<byte>, bs: seq<Bulk>, id: nat, j: nat)
    requires FitBulks(bs) && Sound(nv) && Extract(nv, id).Data? && j < |Extract(nv, id).bytes|
    requires forall k :: 0 <= k < |AllPatches(bs)| ==> InBounds(nv, AllPatches(bs)[k])
    ensures var (ok, t) := OuterLoop(nv, DeltaBytes(bs), 0);
            && ok && Sound(t) && |t| == |nv|
            && Extract(t, id).Data? && |Extract(t, id).bytes| == |Extract(nv, id).bytes|
            && Extract(t, id).bytes[j] == LastWritten(AllPatches(bs), id, j, Extract(nv, id).bytes[j])
  {
    hide Sound, InBounds, Extract, OuterLoop, ApplyAll;
    assert DeltaBytes(bs)[0..] == DeltaBytes(bs);
    DeltaAppliesItsPatches(nv, DeltaBytes(bs), 0, bs);
    LastWriterWins(nv, AllPatches(bs), id, j);
  }

  lemma BulkFits(b: Bulk)
    requires FitsBulk(b)
    ensures FitPatches(b.patches) && |BulkBytes(b)| == 28 + |PatchesBytes(b.patches)|
  {
  }

  lemma NoPatches(nv: seq<byte>)
    ensures ApplyAll(nv, []) == (true, nv)
  {
  }

  // ---------------------------------------------------------------- the program

  /** The bytearray the tool patches in place. */
  class NvImage {
    var data: seq<byte>

    constructor (data: seq<byte>)
      ensures this.data == data
    {
      this.data := data;
    }

    /** `nvbin_extract`. */
    method ExtractItem(eid: nat) returns (r: Extracted)
      ensures r == Extract(data, eid)
    {
      hide Slice, SizeAt, IdAt;
      var pos, size := 4, |data|;
      while pos < size
        invariant FindPadded(data, eid, pos) == FindPadded(data, eid, 4)
        decreases size - pos
      {
        if pos + 4 > size {
          return Raised;
        }
        var nvid, nvsize := IdAt(data, pos), SizeAt(data, pos);
        if nvid == END_ID {
          return NotFound;
        }
        if nvid == eid {
          return Data(Slice(data, pos + 4, pos + 4 + nvsize));
        }
        pos := pos + 4 + Pad4(nvsize);
      }
      return NotFound;
    }

    /** `nvdata_modify`; `ok` is false where it raises. */
    method ModifyItem(nvid: nat, offset: nat, dlen: nat, ddata: seq<byte>) returns (ok: bool)
      modifies this
      ensures (ok, data) == ModifyAt(old(data), nvid, offset, dlen, ddata)
    {
      hide SliceAssign, SizeAt, IdAt;
      var pos, size := 4, |data|;
      while pos < size
        invariant data == old(data) && FindPacked(data, nvid, pos) == FindPacked(data, nvid, 4)
        decreases size - pos
      {
        if pos + 4 > size {
          return false;
        }
        var binNvid, nvsize := IdAt(data, pos), SizeAt(data, pos);
        if binNvid == END_ID {
          break;
        }
        if binNvid == nvid {
          data := SliceAssign(data, pos + 4 + offset, pos + 4 + offset + dlen, ddata);
          return true;
        }
        pos := pos + 4 + nvsize;
      }
      return false;
    }

    /** `nvbin_apply_delta`. */
    method ApplyDelta(delta: seq<byte>) returns (ok: bool)
      modifies this
      ensures (ok, data) == OuterLoop(old(data), delta, 0)
    {
      hide ModifyAt, Slice, Unpack16, Unpack32;
      var size, pos := |delta|, 0;
      while pos + 26 < size
        invariant OuterLoop(data, delta, pos) == OuterLoop(old(data), delta, 0)
        decreases size - pos
      {
        var dsize := Unpack32(delta, pos + 22);
        var dpos := pos + 26;
        ghost var start := data;
        while dpos < pos + dsize - 2
          invariant dpos >= pos + 26
          invariant InnerLoop(data, delta, dpos, pos + dsize - 2) == InnerLoop(start, delta, pos + 26, pos + dsize - 2)
          decreases pos + dsize - 2 - dpos
        {
          if dpos + 6 > size {
            return false;
          }
          var nvid, offset, dlen := Unpack16(delta, dpos), Unpack16(delta, dpos + 2), Unpack16(delta, dpos + 4);
          var ddata := Slice(delta, dpos + 6, dpos + 6 + dlen);
          var done := ModifyItem(nvid, offset, dlen, ddata);
          if !done {
            return false;
          }
          dpos := dpos + 6 + dlen;
        }
        pos := dpos + 2;
      }
      return true;
    }
  }

  // ---------------------------------------------------------------- the bytes of a delta

  /** Where the fields of a patch and of a bulk stand. */
  lemma PatchLayout(p: Patch)
    requires FitsPatch(p)
    ensures var s := PatchBytes(p);
            && Unpack16(s, 0) == p.id && Unpack16(s, 2) == p.offset && Unpack16(s, 4) == |p.data| && s[6..] == p.data
  {
    hide Unpack16, PatchBytes;
    var s := PatchBytes(p);
    assert s[0..|s|] == s;
    ReadPatch(s, 0, p);
  }

  lemma BulkLayout(b: Bulk)
    requires FitsBulk(b)
    ensures var s := BulkBytes(b);
            && s[..20] == b.name && Unpack16(s, 20) == b.version && Unpack32(s, 22) == |s|
            && s[26..|s| - 2] == PatchesBytes(b.patches) && s[|s| - 2..] == [0xFF, 0xFF]
  {
    hide Pack16, Pack32, Unpack16, Unpack32, PatchesBytes;
    var s := BulkBytes(b);
    assert s[20..22] == Pack16(b.version) && s[22..26] == Pack32(|s|);
    Field16(s, 20, b.version);
    Field32(s, 22, |s|);
  }
}
