/** struct sqfs: the open file system with its block caches, and reads through metadata cursors. */
module Fs {
  import opened Prelude
  import opened Image
  import opened SlotCache
  import opened Blocks
  import Disk

  /** The fields of squashfs_super_block that reading uses, and the block positions of the fragment
      and xattr-id tables as sqfs_table_init loads them. */
  datatype Super = Super(blockSize: nat, inodeTable: nat, directoryTable: nat, xattrTable: nat,
                         fragBlocks: seq<nat>, xattrBlocks: seq<nat>)

  // ---- Reads, one block at a time ----

  /** A read that already has `done` and goes on as `r`. */
  function Resume(done: seq<Byte>, r: Result<(seq<Byte>, Cursor)>): Result<(seq<Byte>, Cursor)> {
    match r
    case Err(e) => Err(e)
    case Ok(rest) => Ok((done + rest.0, rest.1))
  }

  /** What a read hands back: nothing but the cursor when there is no buffer. */
  function Copied(r: Result<(seq<Byte>, Cursor)>, copy: bool): Result<(seq<Byte>, Cursor)> {
    match r
    case Err(e) => Err(e)
    case Ok(v) => Ok((if copy then v.0 else [], v.1))
  }

  lemma ResumeNothing(r: Result<(seq<Byte>, Cursor)>)
    ensures Resume([], r) == r
  {
    if r.Ok? {
      assert [] + r.value.0 == r.value.0;
    }
  }

  lemma ResumeEnd(im: Image, done: seq<Byte>, at: Cursor)
    ensures Resume(done, ReadAt(im, at, 0)) == Ok((done, at))
  {
    assert done + [] == done;
  }

  lemma ResumeResume(a: seq<Byte>, b: seq<Byte>, r: Result<(seq<Byte>, Cursor)>)
    ensures Resume(a, Resume(b, r)) == Resume(a + b, r)
  {
    if r.Ok? {
      assert a + (b + r.value.0) == (a + b) + r.value.0;
    }
  }

  /** The cache `md` reads the metadata blocks of the image. */
  ghost predicate Serves(md: BlockCache, im: Image) {
    forall pos: nat :: md.headerOf(pos) == 0 && md.load(pos, 0) == MdAt(im, pos)
  }

  /** `r` is one turn of the loop in sqfs_md_read: some bytes of the current block and a cursor
      from which the read goes on, or the read's own error. */
  ghost predicate Taken(im: Image, at: Cursor, left: nat, r: Result<(seq<Byte>, Cursor)>) {
    match r
    case Err(_) => ReadAt(im, at, left) == r
    case Ok((chunk, next)) =>
      && |chunk| <= left
      && ReadAt(im, at, left) == Resume(chunk, ReadAt(im, next, left - |chunk|))
      && at.block <= next.block
      && (at.block < next.block <= im.size || |chunk| == left)
  }

  lemma TakenFault(im: Image, at: Cursor, left: nat, b: MdBlock)
    requires MdAt(im, at.block) == Some(b) && 0 < left && at.offset > |b.data|
    ensures Taken(im, at, left, Err(OutOfBounds))
  {
  }

  lemma TakenFailure(im: Image, at: Cursor, left: nat)
    requires MdAt(im, at.block) == None && 0 < left
    ensures Taken(im, at, left, Err(IoError))
  {
  }

  lemma TakenChunk(im: Image, at: Cursor, left: nat, b: MdBlock, take: nat)
    requires MdAt(im, at.block) == Some(b) && 0 < left && at.offset <= |b.data|
    requires take == Min(|b.data| - at.offset, left)
    ensures Taken(im, at, left, Ok((b.data[at.offset..at.offset + take], Normalise(at.block, at.offset + take, b))))
  {
    var next := Normalise(at.block, at.offset + take, b);
    if take == left {
      assert ReadAt(im, next, 0) == Ok(([], next));
      assert b.data[at.offset..at.offset + take] + [] == b.data[at.offset..at.offset + take];
    } else {
      assert b.data[at.offset..at.offset + take] == b.data[at.offset..];
    }
  }

  /** The bytes of the metadata block at `pos`, copied while a reference is held, which is then
      dropped: sqfs_md_cache, the copy and sqfs_block_dispose. */
  method MdCopy(md: BlockCache, ghost im: Image, pos: nat) returns (r: Result<MdBlock>)
    requires md.Valid() && Serves(md, im)
    modifies md.Repr()
    ensures md.Valid() && md.held == old(md.held)
    ensures r.Ok? ==> MdAt(im, pos) == Some(r.value)
    ensures r.Err? ==> r.error == AssertFailed || (r.error == IoError && MdAt(im, pos) == None)
    ensures !old(md.failed) && 0 < pos ==> r != Err(AssertFailed)
    ensures r.Ok? ==> md.failed == old(md.failed)
  {
    var got := md.Get(pos, 0);
    if got.Err? {
      return Err(got.error);
    }
    var e := got.value;
    r := Ok(MdBlock(md.heap[e.block].data, e.dataSize));
    md.Release(e.block);
  }

  method MdTake(md: BlockCache, ghost im: Image, at: Cursor, left: nat) returns (r: Result<(seq<Byte>, Cursor)>)
    requires md.Valid() && Serves(md, im) && 0 < left
    modifies md.Repr()
    ensures md.Valid() && md.held == old(md.held)
    ensures r == Err(AssertFailed) || Taken(im, at, left, r)
    ensures !old(md.failed) && 0 < at.block ==> r != Err(AssertFailed)
    ensures r.Ok? ==> md.failed == old(md.failed)
  {
    var got := MdCopy(md, im, at.block);
    if got.Err? {
      if got.error == IoError {
        TakenFailure(im, at, left);
      }
      return Err(got.error);
    }
    var b := got.value;
    if at.offset > |b.data| {
      TakenFault(im, at, left, b);
      return Err(OutOfBounds);
    }
    var take := |b.data| - at.offset;
    if take > left {
      take := left;
    }
    TakenChunk(im, at, left, b, take);
    var next := at.(offset := at.offset + take);
    if next.offset == |b.data| {
      next := Cursor(at.block + b.diskSize, 0);
    }
    return Ok((b.data[at.offset..at.offset + take], next));
  }

  /** sqfs_md_read: `n` bytes from the cursor on, without the bytes when the buffer is NULL (`copy`
      false). The result is the image's, independent of what the cache holds or evicts, unless the
      cache asserts, which it does not while no earlier read has failed. */
  method MdRead(md: BlockCache, ghost im: Image, cur: Cursor, n: nat, copy: bool)
    returns (r: Result<(seq<Byte>, Cursor)>)
    requires md.Valid() && Serves(md, im)
    modifies md.Repr()
    ensures md.Valid() && md.held == old(md.held)
    ensures r == Err(AssertFailed) || r == Copied(ReadAt(im, cur, n), copy)
    ensures !old(md.failed) && 0 < cur.block ==> r != Err(AssertFailed)
    ensures r.Ok? ==> md.failed == old(md.failed)
  {
    var at: Cursor, left: nat, out: seq<Byte> := cur, n, [];
    ghost var done: seq<Byte> := [];
    ResumeNothing(ReadAt(im, cur, n));
    while 0 < left
      invariant md.Valid() && md.held == old(md.held)
      invariant md.failed == old(md.failed)
      invariant cur.block <= at.block
      invariant ReadAt(im, cur, n) == Resume(done, ReadAt(im, at, left))
      invariant out == if copy then done else []
      decreases im.size - at.block, left
    {
      var step := MdTake(md, im, at, left);
      if step.Err? {
        return Err(step.error);
      }
      var (chunk, next) := step.value;
      ResumeResume(done, chunk, ReadAt(im, next, left - |chunk|));
      done := done + chunk;
      if copy {
        out := out + chunk;
      }
      left := left - |chunk|;
      at := next;
    }
    ResumeEnd(im, done, at);
    return Ok((out, at));
  }

  /** A data block in the shape the cache stores it; its size on disk is not used. */
  ghost function DataBlock(im: Image, pos: nat, hdr: nat): Option<MdBlock> {
    match im.data(pos, hdr)
    case None => None
    case Some(bytes) => Some(MdBlock(bytes, 0))
  }

  /** The cache `c` reads the data blocks of the image. */
  ghost predicate ServesData(c: BlockCache, im: Image) {
    forall pos: nat, hdr: nat :: c.load(pos, hdr) == DataBlock(im, pos, hdr)
  }

  /** sqfs_data_cache, the copy and sqfs_block_dispose: the bytes of the data block at `pos`. */
  method DataCopy(c: BlockCache, ghost im: Image, pos: nat, hdr: nat) returns (r: Result<seq<Byte>>)
    requires c.Valid() && ServesData(c, im) && hdr == c.headerOf(pos)
    modifies c.Repr()
    ensures c.Valid() && c.held == old(c.held)
    ensures r.Ok? ==> im.data(pos, hdr) == Some(r.value)
    ensures r.Err? ==> r.error == AssertFailed || (r.error == IoError && im.data(pos, hdr) == None)
    ensures !old(c.failed) && 0 < pos ==> r != Err(AssertFailed)
    ensures r.Ok? ==> c.failed == old(c.failed)
  {
    var got := c.Get(pos, hdr);
    if got.Err? {
      return Err(got.error);
    }
    r := Ok(c.heap[got.value.block].data);
    c.Release(got.value.block);
  }

  /** A 32-bit little-endian word under a cursor. */
  function WordAt(im: Image, cur: Cursor): Result<(nat, Cursor)> {
    match ReadAt(im, cur, 4)
    case Err(e) => Err(e)
    case Ok((bytes, next)) => Ok((U32(bytes, 0), next))
  }

  /** sqfs_md_read of a 32-bit word and its byte swap. */
  method ReadWord(md: BlockCache, ghost im: Image, cur: Cursor) returns (r: Result<(nat, Cursor)>)
    requires md.Valid() && Serves(md, im)
    modifies md.Repr()
    ensures md.Valid() && md.held == old(md.held)
    ensures r == Err(AssertFailed) || r == WordAt(im, cur)
    ensures !old(md.failed) && 0 < cur.block ==> r != Err(AssertFailed)
    ensures r.Ok? ==> md.failed == old(md.failed)
  {
    var got := MdRead(md, im, cur, 4, true);
    match got
    case Err(e) => r := Err(e);
    case Ok((bytes, next)) => r := Ok((U32(bytes, 0), next));
  }

  /** sqfs_table_get. */
  method TableGet(md: BlockCache, ghost im: Image, blocks: seq<nat>, each: nat, idx: nat) returns (r: Result<seq<Byte>>)
    requires md.Valid() && Serves(md, im) && 0 < each
    modifies md.Repr()
    ensures md.Valid() && md.held == old(md.held)
    ensures r == Err(AssertFailed) || r == TableEntry(im, blocks, each, idx)
    ensures !old(md.failed) && (forall i | 0 <= i < |blocks| :: 0 < blocks[i]) ==> r != Err(AssertFailed)
    ensures r.Ok? ==> md.failed == old(md.failed)
  {
    var pos := idx * each;
    var bnum, off := pos / METADATA_SIZE, pos % METADATA_SIZE;
    if bnum >= |blocks| {
      return Err(OutOfBounds);
    }
    var got := MdCopy(md, im, blocks[bnum]);
    if got.Err? {
      return Err(got.error);
    }
    if off + each > |got.value.data| {
      return Err(OutOfBounds);
    }
    return Ok(got.value.data[off..off + each]);
  }

  class FileSystem {
    const disk: Disk.Disk
    const sb: Super
    ghost const im: Image
    const md: BlockCache
    const data: BlockCache
    const frag: BlockCache

    ghost function Repr(): set<object> {
      md.Repr() + data.Repr() + frag.Repr()
    }

    ghost predicate Valid()
      reads Repr()
    {
      && md.Valid() && data.Valid() && frag.Valid()
      && md.Repr() !! data.Repr() && md.Repr() !! frag.Repr() && data.Repr() !! frag.Repr()
      && Serves(md, im) && ServesData(data, im) && ServesData(frag, im)
      && data.headerOf == frag.headerOf
    }

    /** No earlier read has failed and left a cache slot half filled. */
    ghost predicate Ready()
      reads Repr()
    {
      !md.failed && !data.failed && !frag.failed
    }

    /** The block references that callers hold. */
    ghost function Held(): (multiset<Handle>, multiset<Handle>, multiset<Handle>)
      reads Repr()
    {
      (md.held, data.held, frag.held)
    }

    constructor (disk: Disk.Disk, sb: Super, mdSlots: nat, dataSlots: nat, fragSlots: nat, ghost headerOf: nat -> nat)
      requires 0 < mdSlots && 0 < dataSlots && 0 < fragSlots
      ensures Valid() && Ready() && fresh(Repr())
      ensures Held() == (multiset{}, multiset{}, multiset{})
      ensures this.disk == disk && this.sb == sb && data.headerOf == headerOf
      ensures im == Disk.Decode(disk, sb.blockSize)
    {
      this.disk := disk;
      this.sb := sb;
      im := Disk.Decode(disk, sb.blockSize);
      md := new BlockCache(mdSlots, (pos: nat, hdr: nat) => Disk.MdBlockAt(disk, pos), _ => 0);
      var load := (pos: nat, hdr: nat) =>
        match Disk.DataBlockAt(disk, sb.blockSize, pos, hdr)
        case None => None
        case Some(bytes) => Some(MdBlock(bytes, 0));
      data := new BlockCache(dataSlots, load, headerOf);
      frag := new BlockCache(fragSlots, load, headerOf);
      new;
      forall pos: nat
        ensures md.load(pos, 0) == MdAt(im, pos)
      {
        Disk.DecodedMd(disk, sb.blockSize, pos);
      }
    }

    /** sqfs_md_read on this file system. */
    method Read(cur: Cursor, n: nat, copy: bool) returns (r: Result<(seq<Byte>, Cursor)>)
      requires Valid()
      modifies Repr()
      ensures Valid() && Held() == old(Held())
      ensures r == Err(AssertFailed) || r == Copied(ReadAt(im, cur, n), copy)
      ensures old(Ready()) && 0 < cur.block ==> r != Err(AssertFailed)
      ensures old(Ready()) && r.Ok? ==> Ready()
    {
      r := MdRead(md, im, cur, n, copy);
    }

    /** sqfs_destroy: with no reference out, every block ever loaded is freed. */
    method Destroy()
      requires Valid() && Held() == (multiset{}, multiset{}, multiset{})
      modifies Repr()
      ensures md.heap == map[] && data.heap == map[] && frag.heap == map[]
    {
      md.Destroy();
      data.Destroy();
      frag.Destroy();
    }
  }
}
