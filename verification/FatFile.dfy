/**
 Reading and writing the pages of a FAT32 file (src/fs/nfat32/file.rs, fs.rs) against the flat byte
 string that its sectors, in chain order, make up.
 */
module FatFiles {
  import opened Collections
  import opened Options
  import opened Bytes
  import opened Shifts
  import opened FatTables
  import opened FatSectors

  type Blocks = map<nat, seq<Byte>>

  /** Every sector of the file is on the device. */
  predicate OnDisk(g: Geometry, cs: seq<nat>, blocks: Blocks) {
    Clusters(cs) && forall k: nat :: k < SectorCount(g, cs) ==> HasBlock(blocks, Sector(g, cs, k))
  }

  predicate HasBlock(blocks: Blocks, s: nat) { s in blocks && |blocks[s]| == BLOCK_SIZE }

  function ByteAt(g: Geometry, cs: seq<nat>, blocks: Blocks, i: nat): Byte
    requires OnDisk(g, cs, blocks) && i / BLOCK_SIZE < SectorCount(g, cs)
  {
    assert HasBlock(blocks, Sector(g, cs, i / BLOCK_SIZE));
    blocks[Sector(g, cs, i / BLOCK_SIZE)][i % BLOCK_SIZE]
  }

  /** All bytes of the chain, in order. */
  ghost function FileBytes(g: Geometry, cs: seq<nat>, blocks: Blocks): (r: seq<Byte>)
    requires OnDisk(g, cs, blocks)
    ensures |r| == SectorCount(g, cs) * BLOCK_SIZE
    ensures forall i :: 0 <= i < |r| ==> r[i] == ByteAt(g, cs, blocks, i)
  {
    seq(SectorCount(g, cs) * BLOCK_SIZE, i requires 0 <= i < SectorCount(g, cs) * BLOCK_SIZE => ByteAt(g, cs, blocks, i))
  }

  lemma SectorBytes(g: Geometry, cs: seq<nat>, blocks: Blocks, k: nat, len: nat)
    requires OnDisk(g, cs, blocks) && k < SectorCount(g, cs) && len <= BLOCK_SIZE
    ensures HasBlock(blocks, Sector(g, cs, k)) && BLOCK_SIZE * k + len <= |FileBytes(g, cs, blocks)|
    ensures FileBytes(g, cs, blocks)[BLOCK_SIZE * k..BLOCK_SIZE * k + len] == blocks[Sector(g, cs, k)][..len]
  {
    hide Sector, SectorCount, FileBytes;
    var f := FileBytes(g, cs, blocks);
    assert HasBlock(blocks, Sector(g, cs, k));
    forall j: nat | j < len
      ensures f[BLOCK_SIZE * k + j] == blocks[Sector(g, cs, k)][j]
    {
      assert (BLOCK_SIZE * k + j) / BLOCK_SIZE == k && (BLOCK_SIZE * k + j) % BLOCK_SIZE == j;
    }
  }

  /** One sector of the file is overwritten from its start. */
  lemma SectorWritten(g: Geometry, cs: seq<nat>, blocks: Blocks, k: nat, data: seq<Byte>)
    requires OnDisk(g, cs, blocks) && Distinct(cs) && k < SectorCount(g, cs) && |data| <= BLOCK_SIZE
    requires HasBlock(blocks, Sector(g, cs, k))
    ensures
      var s := Sector(g, cs, k);
      var blocks' := blocks[s := data + blocks[s][|data|..]];
      && OnDisk(g, cs, blocks') && BLOCK_SIZE * k <= |FileBytes(g, cs, blocks)|
      && FileBytes(g, cs, blocks') == Written(FileBytes(g, cs, blocks), BLOCK_SIZE * k, data)
  {
    hide Sector, SectorCount, FileBytes, Written;
    var s := Sector(g, cs, k);
    var blocks' := blocks[s := data + blocks[s][|data|..]];
    forall j: nat | j < SectorCount(g, cs)
      ensures HasBlock(blocks', Sector(g, cs, j))
    {
      assert HasBlock(blocks, Sector(g, cs, j));
    }
    var f, f' := FileBytes(g, cs, blocks), FileBytes(g, cs, blocks');
    WrittenBytes(f, BLOCK_SIZE * k, data);
    forall i | 0 <= i < |f|
      ensures f'[i] == Written(f, BLOCK_SIZE * k, data)[i]
    {
      WrittenByte(g, cs, blocks, k, data, i);
    }
  }

  lemma WrittenByte(g: Geometry, cs: seq<nat>, blocks: Blocks, k: nat, data: seq<Byte>, i: nat)
    requires OnDisk(g, cs, blocks) && Distinct(cs) && k < SectorCount(g, cs) && |data| <= BLOCK_SIZE
    requires HasBlock(blocks, Sector(g, cs, k)) && i / BLOCK_SIZE < SectorCount(g, cs)
    requires
      var s := Sector(g, cs, k);
      OnDisk(g, cs, blocks[s := data + blocks[s][|data|..]])
    ensures
      var s, at := Sector(g, cs, k), BLOCK_SIZE * k;
      ByteAt(g, cs, blocks[s := data + blocks[s][|data|..]], i) ==
      if at <= i < at + |data| then data[i - at] else ByteAt(g, cs, blocks, i)
  {
    hide Sector, SectorCount;
    if i / BLOCK_SIZE != k {
      SectorsDiffer(g, cs, i / BLOCK_SIZE, cs, k);
    }
  }

  /** A sector outside of the chain does not matter. */
  lemma OtherWritten(g: Geometry, cs: seq<nat>, blocks: Blocks, other: seq<nat>, k: nat, block: seq<Byte>)
    requires OnDisk(g, cs, blocks) && Clusters(other) && Apart(cs, other) && k < SectorCount(g, other)
    ensures
      var blocks' := blocks[Sector(g, other, k) := block];
      OnDisk(g, cs, blocks') && FileBytes(g, cs, blocks') == FileBytes(g, cs, blocks)
  {
    hide Sector, SectorCount, FileBytes;
    var blocks' := blocks[Sector(g, other, k) := block];
    forall j: nat | j < SectorCount(g, cs)
      ensures Sector(g, cs, j) != Sector(g, other, k) && HasBlock(blocks', Sector(g, cs, j))
    {
      assert HasBlock(blocks, Sector(g, cs, j));
      SectorsDiffer(g, cs, j, other, k);
    }
    var f, f' := FileBytes(g, cs, blocks), FileBytes(g, cs, blocks');
    forall i | 0 <= i < |f|
      ensures f'[i] == f[i]
    {
      assert ByteAt(g, cs, blocks', i) == ByteAt(g, cs, blocks, i);
    }
  }

  class Fat32FS {
    const geo: Geometry
    const fat: array<U32>
    var blocks: Blocks

    constructor (geo: Geometry, fat: array<U32>, blocks: Blocks)
      ensures this.geo == geo && this.fat == fat && this.blocks == blocks
    {
      this.geo := geo;
      this.fat := fat;
      this.blocks := blocks;
    }

    method NextSectorOf(sid: nat) returns (r: Option<nat>)
      requires geo.dataBegin <= sid && FindCluster(geo, sid) < fat.Length
      ensures r == NextSector(geo, fat[..], sid)
    {
      var rel := sid - geo.dataBegin;
      var c := Shr(rel, geo.log) + 2;
      if Low(rel, geo.log) == Shl(1, geo.log) - 1 {
        r := if fat[c] >= END_MIN then None else if fat[c] < 2 then None else Some(FirstSector(geo, fat[c]));
      } else {
        r := Some(sid + 1);
      }
    }

    /** `read_sector` into a part of a buffer, of at most one block. */
    method ReadSector(sid: nat, buf: array<Byte>, at: nat, len: nat)
      requires HasBlock(blocks, sid) && len <= BLOCK_SIZE && at + len <= buf.Length
      modifies buf
      ensures buf[..] == Overlay(old(buf[..]), at, blocks[sid][..len])
    {
      if len == BLOCK_SIZE {
        CopyInto(buf, at, blocks[sid]);
        assert blocks[sid][..len] == blocks[sid];
      } else {
        var blkBuf := blocks[sid];
        CopyInto(buf, at, blkBuf[0..len]);
      }
    }

    /** `write_sector`: a short buffer is put over the start of what the device has there. */
    method WriteSector(sid: nat, data: seq<Byte>)
      requires HasBlock(blocks, sid) && |data| <= BLOCK_SIZE
      modifies this
      ensures blocks == old(blocks)[sid := data + old(blocks)[sid][|data|..]]
    {
      if |data| == BLOCK_SIZE {
        assert data + blocks[sid][|data|..] == data;
        blocks := blocks[sid := data];
      } else {
        var blkBuf := blocks[sid];
        blocks := blocks[sid := data + blkBuf[|data|..]];
      }
    }

    /** A file whose cached chain is the linked one and whose size fits it. */
    ghost predicate FileOk(cs: seq<nat>, size: nat)
      reads this, fat
    {
      IsChain(fat[..], cs) && OnDisk(geo, cs, blocks) && size <= SectorCount(geo, cs) * BLOCK_SIZE
    }

    /** `read_page_at` */
    method ReadPageAt(cs: seq<nat>, size: nat, offset: nat, buf: array<Byte>) returns (readLen: nat)
      requires FileOk(cs, size) && offset % BLOCK_SIZE == 0 && buf.Length % BLOCK_SIZE == 0
      modifies buf
      ensures readLen == |Slice(FileBytes(geo, cs, blocks)[..size], offset, buf.Length)|
      ensures buf[..readLen] == Slice(FileBytes(geo, cs, blocks)[..size], offset, buf.Length)
      ensures buf[readLen..] == old(buf[readLen..])
    {
      hide Sector, SectorCount, FileBytes, Shl, Shr, Low, IsChain, Slice, OnDisk, NextSector, FindCluster, OffsetSct,
        ReadSoFar, Overlay;
      ghost var f := FileBytes(geo, cs, blocks);
      if offset >= size {
        ReadNothing(f[..size], offset, buf.Length);
        return 0;
      }
      ghost var was := buf[..];
      readLen := ReadSectors(cs, size, offset, buf);
      ReadDone(f, size, offset, readLen, buf.Length);
      ReadEnd(f, offset, readLen, was);
      assert buf[..readLen] == buf[..][..readLen] && buf[readLen..] == buf[..][readLen..];
    }

    /** The loop of `read_page_at`. */
    method ReadSectors(cs: seq<nat>, size: nat, offset: nat, buf: array<Byte>) returns (readLen: nat)
      requires FileOk(cs, size) && offset % BLOCK_SIZE == 0 && buf.Length % BLOCK_SIZE == 0 && offset < size
      modifies buf
      ensures readLen <= buf.Length && offset + readLen <= size && (readLen == buf.Length || offset + readLen == size)
      ensures buf[..] == ReadSoFar(FileBytes(geo, cs, blocks), offset, readLen, old(buf[..]))
    {
      hide Sector, SectorCount, FileBytes, Shl, Shr, Low, IsChain, OnDisk, NextSector, FindCluster, OffsetSct,
        ReadSoFar, Overlay;
      ghost var f := FileBytes(geo, cs, blocks);
      ghost var k: nat := offset / BLOCK_SIZE;
      ChainClusters(fat[..], cs);
      OffsetIsSector(geo, cs, offset);
      var sid := OffsetSct(geo, cs, offset).0;
      readLen := 0;
      ghost var was := buf[..];
      ReadStart(f, offset, was);
      while true
        invariant k < SectorCount(geo, cs) && sid == Sector(geo, cs, k) && BLOCK_SIZE * k == offset + readLen
        invariant offset + readLen < size && readLen <= buf.Length && (readLen > 0 ==> readLen < buf.Length)
        invariant buf[..] == ReadSoFar(f, offset, readLen, was)
        decreases size - (offset + readLen)
      {
        var len := Min(Min(buf.Length - readLen, size - offset - readLen), BLOCK_SIZE);
        SectorBytes(geo, cs, blocks, k, len);
        ReadMore(f, offset, readLen, len, was);
        ReadSector(sid, buf, readLen, len);
        readLen := readLen + len;
        NextIsNext(geo, fat[..], cs, k);
        var next := NextSectorOf(sid);
        if next.None? || size - offset - readLen == 0 || buf.Length - readLen == 0 {
          break;
        }
        sid := next.value;
        k := k + 1;
      }
    }

    /** `write_page_at`: the page is put over the file, up to its size; no other file changes. */
    method WritePageAt(cs: seq<nat>, size: nat, offset: nat, data: seq<Byte>) returns (writeLen: nat)
      requires FileOk(cs, size) && offset % BLOCK_SIZE == 0 && |data| % BLOCK_SIZE == 0
      modifies this
      ensures FileOk(cs, size) && Untouched(geo, cs, old(blocks), blocks)
      ensures writeLen == if offset >= size then 0 else Min(|data|, size - offset)
      ensures offset < size ==>
                FileBytes(geo, cs, blocks) == Written(old(FileBytes(geo, cs, blocks)), offset, data[..writeLen])
      ensures offset >= size ==> blocks == old(blocks)
    {
      hide Sector, SectorCount, FileBytes, Shl, Shr, Low, IsChain, OnDisk, Untouched, Written;
      ghost var blocks0 := blocks;
      ghost var f := FileBytes(geo, cs, blocks);
      UntouchedNone(geo, cs, blocks);
      if offset >= size {
        return 0;
      }
      ghost var k: nat := offset / BLOCK_SIZE;
      ChainClusters(fat[..], cs);
      ChainDistinct(fat[..], cs);
      OffsetIsSector(geo, cs, offset);
      var sid := OffsetSct(geo, cs, offset).0;
      writeLen := 0;
      WrittenNone(f, offset);
      while true
        invariant k < SectorCount(geo, cs) && sid == Sector(geo, cs, k) && BLOCK_SIZE * k == offset + writeLen
        invariant offset + writeLen < size && writeLen <= |data| && (writeLen > 0 ==> writeLen < |data|)
        invariant OnDisk(geo, cs, blocks) && Untouched(geo, cs, blocks0, blocks)
        invariant FileBytes(geo, cs, blocks) == Written(f, offset, data[..writeLen])
        decreases size - (offset + writeLen)
      {
        var len := Min(Min(|data| - writeLen, size - offset - writeLen), BLOCK_SIZE);
        ghost var blocks1 := blocks;
        var part := data[writeLen..writeLen + len];
        SectorBytes(geo, cs, blocks, k, len);
        SectorWritten(geo, cs, blocks, k, part);
        UntouchedMore(geo, cs, blocks0, blocks, k, part + blocks[sid][len..]);
        WriteSector(sid, part);
        WrittenTwice(f, offset, data[..writeLen], part);
        assert data[..writeLen] + part == data[..writeLen + len];
        writeLen := writeLen + len;
        NextIsNext(geo, fat[..], cs, k);
        var next := NextSectorOf(sid);
        if next.None? || size - offset - writeLen == 0 || |data| - writeLen == 0 {
          break;
        }
        sid := next.value;
        k := k + 1;
      }
    }
  }

  /** Every file whose chain has no cluster in common with `cs` is as before. */
  ghost predicate Untouched(g: Geometry, cs: seq<nat>, a: Blocks, b: Blocks) {
    forall other: seq<nat> :: OtherSame(g, cs, a, b, other)
  }

  ghost predicate OtherSame(g: Geometry, cs: seq<nat>, a: Blocks, b: Blocks, other: seq<nat>) {
    OnDisk(g, other, a) && Apart(other, cs) ==> OnDisk(g, other, b) && FileBytes(g, other, b) == FileBytes(g, other, a)
  }

  lemma UntouchedNone(g: Geometry, cs: seq<nat>, a: Blocks)
    ensures Untouched(g, cs, a, a)
  {
  }

  lemma UntouchedMore(g: Geometry, cs: seq<nat>, a: Blocks, b: Blocks, k: nat, block: seq<Byte>)
    requires Clusters(cs) && k < SectorCount(g, cs) && Untouched(g, cs, a, b)
    ensures Untouched(g, cs, a, b[Sector(g, cs, k) := block])
  {
    hide Sector, SectorCount, FileBytes, OnDisk;
    var b' := b[Sector(g, cs, k) := block];
    forall other: seq<nat>
      ensures OtherSame(g, cs, a, b', other)
    {
      assert OtherSame(g, cs, a, b, other);
      if OnDisk(g, other, a) && Apart(other, cs) {
        OtherWritten(g, other, b, cs, k, block);
      }
    }
  }

  lemma WrittenNone(f: seq<Byte>, at: nat)
    requires at <= |f|
    ensures Written(f, at, []) == f
  {
  }

  /** What was written is read back, whatever the file held before. */
  lemma ReadBack(f: seq<Byte>, size: nat, offset: nat, data: seq<Byte>)
    requires offset < size <= |f|
    ensures
      var n := Min(|data|, size - offset);
      |Written(f, offset, data[..n])| == |f| && Slice(Written(f, offset, data[..n])[..size], offset, |data|) == data[..n]
  {
    hide Written;
    var n := Min(|data|, size - offset);
    var w := Written(f, offset, data[..n]);
    WrittenBytes(f, offset, data[..n]);
    assert |w| == |f|;
    var r := w[..size][offset..offset + n];
    forall i | 0 <= i < n
      ensures r[i] == data[i]
    {
      assert r[i] == w[offset + i];
    }
    assert r == data[..n];
  }

  /** `write_page_at` and then `read_page_at` at the same place. */
  method RoundTrip(fs: Fat32FS, cs: seq<nat>, size: nat, offset: nat, data: seq<Byte>) returns (back: seq<Byte>)
    requires fs.FileOk(cs, size) && offset < size && offset % BLOCK_SIZE == 0 && |data| % BLOCK_SIZE == 0
    modifies fs
    ensures back == data[..Min(|data|, size - offset)]
  {
    hide Sector, SectorCount, FileBytes, IsChain, Slice, OnDisk, Written, Untouched;
    ReadBack(FileBytes(fs.geo, cs, fs.blocks), size, offset, data);
    var _ := fs.WritePageAt(cs, size, offset, data);
    var buf := new Byte[|data|];
    var n := fs.ReadPageAt(cs, size, offset, buf);
    back := buf[..n];
  }

  lemma ReadNothing(f: seq<Byte>, offset: nat, n: nat)
    requires offset >= |f|
    ensures Slice(f, offset, n) == []
  {
  }

  lemma ReadDone(f: seq<Byte>, size: nat, offset: nat, readLen: nat, n: nat)
    requires size <= |f| && readLen <= n && offset < size && offset + readLen <= size
    requires readLen == n || offset + readLen == size
    ensures Slice(f[..size], offset, n) == f[offset..offset + readLen]
  {
  }

  lemma ChainClusters(fat: Fat, cs: seq<nat>)
    requires IsChain(fat, cs)
    ensures Clusters(cs)
  {
  }
}
