/** Firmware reception over the serial console and block-wise OTA writing (hello_world.c). */
module Firmware {
  import opened Bytes
  import opened Layout
  import opened Arith

  const BLOCK_SIZE: nat := 2048

  // ---------------------------------------------------------------- reception

  /** A reception in progress: bytes wanted, bytes stored, nwy_update_flag, end signals sent. */
  datatype Rx = Rx(size: nat, got: seq<byte>, flag: nat, signals: nat)

  /** What the serial callback does with a chunk during a firmware update (flag 1): once the
      flag is back to 0, chunks are console text again. */
  function Feed(rx: Rx, chunk: seq<byte>): Rx
    requires rx.flag == 1 ==> |rx.got| <= rx.size
  {
    if rx.flag != 1 then rx
    else
      var room := rx.size - |rx.got|;
      var got := rx.got + if |chunk| >= room then chunk[..room] else chunk;
      if |got| == rx.size then Rx(rx.size, got, 0, rx.signals + 1) else rx.(got := got)
  }

  function Taken(s: seq<byte>, n: nat): (r: seq<byte>)
    ensures |r| == Min(n, |s|)
  {
    if |s| <= n then s else s[..n]
  }

  /** The state after `chunks`, of a reception of `size` bytes. */
  function FeedAll(size: nat, chunks: seq<seq<byte>>): (rx: Rx)
    ensures |rx.got| <= rx.size
  {
    if chunks == [] then Rx(size, [], 1, 0)
    else
      var rx := FeedAll(size, chunks[..|chunks| - 1]);
      Feed(rx, chunks[|chunks| - 1])
  }

  /** However the stream is cut into chunks, exactly its first `size` bytes are stored, and the
      end is signalled once, when the last of them arrives, never again. */
  lemma {:induction false} ReceptionIsChunkIndependent(size: nat, chunks: seq<seq<byte>>)
    requires size > 0
    ensures var rx, s := FeedAll(size, chunks), Flat(chunks);
            && rx.size == size && rx.got == Taken(s, size)
            && rx.signals == (if |s| >= size then 1 else 0)
            && rx.flag == (if |s| >= size then 0 else 1)
    decreases |chunks|
  {
    if chunks != [] {
      ReceptionIsChunkIndependent(size, chunks[..|chunks| - 1]);
    }
  }

  /** The application-image variant (flag 2) does not cut the last chunk. */
  function FeedImage(rx: Rx, chunk: seq<byte>): Rx {
    if rx.flag != 2 then rx
    else
      var got := rx.got + chunk;
      if |got| >= rx.size then Rx(rx.size, got, 0, rx.signals + 1) else rx.(got := got)
  }

  function FeedImageAll(size: nat, chunks: seq<seq<byte>>): Rx {
    if chunks == [] then Rx(size, [], 2, 0)
    else FeedImage(FeedImageAll(size, chunks[..|chunks| - 1]), chunks[|chunks| - 1])
  }

  /** Some chunk ends exactly at byte `size`, or the stream is shorter. */
  predicate BoundaryAt(size: nat, chunks: seq<seq<byte>>) {
    |Flat(chunks)| < size || exists k :: 0 <= k <= |chunks| && |Flat(chunks[..k])| == size
  }

  lemma {:induction false} FlatGrows(chunks: seq<seq<byte>>, k: nat)
    requires k <= |chunks|
    ensures |Flat(chunks[..k])| <= |Flat(chunks)|
    decreases |chunks| - k
  {
    if k < |chunks| {
      FlatGrows(chunks, k + 1);
      assert chunks[..k + 1][..k] == chunks[..k];
    } else {
      assert chunks[..k] == chunks;
    }
  }

  /** The variant also signals once, but stores no more than `size` bytes if and only if the
      stream is cut at byte `size` (or ends before it). */
  lemma {:induction false} ImageReceptionFitsIff(size: nat, chunks: seq<seq<byte>>)
    requires size > 0
    ensures var rx, s := FeedImageAll(size, chunks), Flat(chunks);
            && rx.size == size && rx.got <= s
            && (|s| < size ==> rx == Rx(size, s, 2, 0))
            && (|s| >= size ==> rx.flag == 0 && rx.signals == 1 && |rx.got| >= size)
            && (|rx.got| <= size <==> BoundaryAt(size, chunks))
    decreases |chunks|
  {
    if chunks != [] {
      var n := |chunks| - 1;
      var past := chunks[..n];
      ImageReceptionFitsIff(size, past);
      assert Flat(chunks) == Flat(past) + chunks[n];
      assert chunks[..|chunks|] == chunks;
      assert forall k :: 0 <= k <= n ==> chunks[..k] == past[..k];
      if |Flat(past)| < size {
        forall k | 0 <= k <= n
          ensures |Flat(chunks[..k])| < size
        {
          FlatGrows(past, k);
        }
      }
    }
  }

  /** It stores every byte of the chunks up to the one that reaches `size`, and none behind it. */
  lemma {:induction false} ImageReceptionStores(size: nat, chunks: seq<seq<byte>>, k: nat)
    requires size > 0 && 0 < k <= |chunks|
    requires |Flat(chunks[..k - 1])| < size <= |Flat(chunks[..k])|
    ensures FeedImageAll(size, chunks).got == Flat(chunks[..k])
    decreases |chunks|
  {
    var past := chunks[..|chunks| - 1];
    ImageReceptionFitsIff(size, past);
    if k < |chunks| {
      assert past[..k] == chunks[..k] && past[..k - 1] == chunks[..k - 1];
      ImageReceptionStores(size, past, k);
      FlatGrows(past, k);
    } else {
      assert chunks[..k] == chunks && chunks[..k - 1] == past;
    }
  }

  lemma ImageReceptionCanOverrun(a: byte, b: byte)
    ensures |FeedImageAll(1, [[a, b]]).got| == 2 && !BoundaryAt(1, [[a, b]])
  {
    ImageReceptionFitsIff(1, [[a, b]]);
    assert [[a, b]][..0] == [];
  }

  /** The serial callback outside console input. */
  function Receive(rx: Rx, chunk: seq<byte>): Rx
    requires rx.flag == 1 ==> |rx.got| <= rx.size
  {
    if rx.flag == 1 then Feed(rx, chunk) else FeedImage(rx, chunk)
  }

  class Receiver {
    var size: nat
    var pos: nat
    const data: array<byte>
    var updateFlag: nat
    var signals: nat

    ghost predicate Valid()
      reads this
    {
      pos <= data.Length && size <= data.Length && (updateFlag == 1 ==> pos <= size)
    }

    ghost function View(): Rx
      requires Valid()
      reads this, data
    {
      Rx(size, data[..pos], updateFlag, signals)
    }

    /** The allocation before a reception of firmware (flag 1) or an application image (flag 2). */
    constructor (size: nat, flag: nat)
      ensures Valid() && fresh(data) && data.Length == size && View() == Rx(size, [], flag, 0)
    {
      this.size, pos, updateFlag, signals := size, 0, flag, 0;
      data := new byte[size];
    }

    /** The serial callback while a reception may be running. An application image is stored
        without looking at the room left, so the caller has to. */
    method DataCb(chunk: seq<byte>)
      requires Valid() && (updateFlag == 2 ==> pos + |chunk| <= data.Length)
      modifies this, data
      ensures Valid() && View() == Receive(old(View()), chunk)
    {
      if updateFlag == 1 {
        AppInfoProc(chunk);
      } else if updateFlag == 2 {
        AppImgInfoProc(chunk);
      }
    }

    /** `memcpy` behind what was received so far. */
    method Store(chunk: seq<byte>, length: nat)
      requires length <= |chunk| && pos + length <= data.Length
      modifies this`pos, data
      ensures pos == old(pos) + length && data[..pos] == old(data[..pos]) + chunk[..length]
    {
      ghost var was := data[..pos];
      for i := 0 to length
        invariant data[..pos] == was && data[pos..pos + i] == chunk[..i]
        modifies data
      {
        data[pos + i] := chunk[i];
      }
      assert data[..pos + length] == was + chunk[..length];
      pos := pos + length;
    }

    /** `nwy_ext_appimg_info_proc`. */
    method AppImgInfoProc(chunk: seq<byte>)
      requires Valid() && updateFlag == 2 && pos + |chunk| <= data.Length
      modifies this, data
      ensures Valid() && View() == FeedImage(old(View()), chunk)
    {
      Store(chunk, |chunk|);
      assert chunk[..|chunk|] == chunk;
      if pos == size {
        signals := signals + 1;
        updateFlag := 0;
      }
      if pos > size {
        signals := signals + 1;
        updateFlag := 0;
      }
    }

    /** `nwy_ext_app_info_proc`; the branch for a position past the end is never taken. */
    method AppInfoProc(chunk: seq<byte>)
      requires Valid() && updateFlag == 1
      modifies this, data
      ensures Valid() && View() == Feed(old(View()), chunk)
    {
      var length := |chunk|;
      if length >= size - pos {
        length := size - pos;
      }
      Store(chunk, length);
      assert chunk[..|chunk|] == chunk;
      if pos > size {
        assert false;
      }
      if pos == size {
        signals := signals + 1;
        updateFlag := 0;
      }
    }
  }

  // ---------------------------------------------------------------- block-wise OTA

  datatype Block = Block(offset: nat, bytes: seq<byte>)

  /** Blocks start where the one before ended, hold 1 to 2048 bytes, and carry those of `file`. */
  predicate TilesPrefix(blocks: seq<Block>, file: seq<byte>, to: nat)
    decreases |blocks|
  {
    if blocks == [] then to == 0
    else
      var b := blocks[|blocks| - 1];
      && b.offset < to <= |file| && to - b.offset <= BLOCK_SIZE && b.bytes == file[b.offset..to]
      && TilesPrefix(blocks[..|blocks| - 1], file, b.offset)
  }

  function Contents(blocks: seq<Block>): seq<byte> {
    if blocks == [] then [] else Contents(blocks[..|blocks| - 1]) + blocks[|blocks| - 1].bytes
  }

  /** Tiling blocks concatenate to the prefix they tile. */
  lemma {:induction false} TilesContents(blocks: seq<Block>, file: seq<byte>, to: nat)
    requires TilesPrefix(blocks, file, to)
    ensures to <= |file| && Contents(blocks) == file[..to]
    decreases |blocks|
  {
    if blocks != [] {
      var b := blocks[|blocks| - 1];
      TilesContents(blocks[..|blocks| - 1], file, b.offset);
      assert file[..b.offset] + file[b.offset..to] == file[..to];
    }
  }

  lemma BlockIs(b: Block, file: seq<byte>, readLen: int)
    requires readLen > 0 && b.offset < |file| && |b.bytes| == Min(readLen, Min(2048, |file| - b.offset))
    ensures BlockRead(b, file, readLen)
  {
  }

  lemma NoBlocks(file: seq<byte>)
    ensures TilesPrefix([], file, 0)
  {
  }

  lemma OneMoreBlock(blocks: seq<Block>, file: seq<byte>, offset: nat, n: nat)
    requires TilesPrefix(blocks, file, offset) && 0 < n <= BLOCK_SIZE && offset + n <= |file|
    ensures TilesPrefix(blocks + [Block(offset, file[offset..offset + n])], file, offset + n)
  {
    var more := blocks + [Block(offset, file[offset..offset + n])];
    assert more[..|more| - 1] == blocks;
  }

  /** A block as one `fread` made it: what it returned, but at most 2048 bytes and the rest of the file. */
  predicate BlockRead(b: Block, file: seq<byte>, readLen: int) {
    readLen > 0 && b.offset < |file| && |b.bytes| == Min(readLen, Min(2048, |file| - b.offset))
  }

  datatype OtaEnd = Complete | ReadError | WriteError

  /** The block loop of `nwy_appimg_fota_test`: `readLens(i)` is what the i-th `fread` returns, at
      most what was asked; `rets(i)` is the return code of the i-th `nwy_fota_dm`. */
  method OtaLoop(file: seq<byte>, readLens: nat -> int, rets: nat -> int) returns (blocks: seq<Block>, end: OtaEnd)
    ensures exists to :: TilesPrefix(blocks, file, to)
    ensures forall i :: 0 <= i < |blocks| ==> BlockRead(blocks[i], file, readLens(i))
    ensures forall i :: 0 <= i < |blocks| - 1 ==> rets(i) >= 0
    ensures end == WriteError <==> |blocks| > 0 && rets(|blocks| - 1) < 0
    ensures end == ReadError <==>
      (|blocks| > 0 ==> rets(|blocks| - 1) >= 0) && Contents(blocks) < file && readLens(|blocks|) <= 0
    ensures end == Complete <==> (|blocks| > 0 ==> rets(|blocks| - 1) >= 0) && Contents(blocks) == file
    ensures end == Complete ==> TilesPrefix(blocks, file, |file|)
  {
    hide TilesPrefix, Contents, BlockRead;
    blocks := [];
    var otaSize, offset, i := |file|, 0, 0;
    NoBlocks(file);
    while otaSize > 0
      invariant 0 <= otaSize && offset + otaSize == |file| && TilesPrefix(blocks, file, offset) && i == |blocks|
      invariant forall j :: 0 <= j < i ==> BlockRead(blocks[j], file, readLens(j)) && rets(j) >= 0
      decreases otaSize
    {
      var tmpLen := BLOCK_SIZE;
      if otaSize < tmpLen {
        tmpLen := otaSize;
      }
      var readLen := Min(readLens(i), tmpLen);
      if readLen <= 0 {
        TilesContents(blocks, file, offset);
        return blocks, ReadError;
      }
      var block := Block(offset, file[offset..offset + readLen]);
      OneMoreBlock(blocks, file, offset, readLen);
      blocks := blocks + [block];
      assert BlockRead(block, file, readLens(i)) by { BlockIs(block, file, readLens(i)); }
      if rets(i) < 0 {
        return blocks, WriteError;
      }
      offset := offset + readLen;
      otaSize := otaSize - readLen;
      i := i + 1;
    }
    TilesContents(blocks, file, |file|);
    assert file[..|file|] == file;
    return blocks, Complete;
  }
}
