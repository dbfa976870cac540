/** sqfs_read_range: any stretch of a regular file, through block list, holes, caches and fragment.
    A clause `P() == true` is proved as one fact, and not conjunct by conjunct, which keeps the proofs quick. */
module ReadRange {
  import opened Prelude
  import opened LittleEndian
  import opened Image
  import opened SlotCache
  import opened Blocks
  import opened Fs
  import opened Blocklist
  import opened BlockIndex
  import opened FileContent
  import opened Reader
  import opened FileReader
  import opened ReadLoop

  const FRAG_ENTRY_SIZE := 16

  /** A position determines the header its block is read with, and 0 is no block's position. */
  ghost predicate HeadersMatch(c: Content, headerOf: nat -> nat)
    requires 0 < c.f.blockSize
  {
    forall k | 0 <= k < c.f.Count() :: HeaderMatches(c, headerOf, k)
  }

  ghost predicate HeaderMatches(c: Content, headerOf: nat -> nat, k: nat) {
    c.f.Size(k) != 0 ==> 0 < c.f.BlockPos(k) && headerOf(c.f.BlockPos(k)) == c.f.header(k)
  }

  /** What a fragment table entry says: where the fragment block is and its header. */
  function FragPos(entry: seq<Byte>): nat
    requires |entry| == FRAG_ENTRY_SIZE
  {
    U64(entry, 0)
  }

  function FragHeader(entry: seq<Byte>): nat
    requires |entry| == FRAG_ENTRY_SIZE
  {
    U32(entry, 8)
  }

  /** squashfs_fragment_entry, as it is written. */
  lemma FragEntryComesBack(pos: nat, header: nat, unused: nat)
    requires pos < TWO32 * TWO32 && header < TWO32
    ensures var entry := Little(pos, 8) + Little(header, 4) + Little(unused, 4);
            |entry| == FRAG_ENTRY_SIZE && FragPos(entry) == pos && FragHeader(entry) == header
  {
    var entry := Little(pos, 8) + Little(header, 4) + Little(unused, 4);
    Reads64(entry, 0, pos);
    Reads32(entry, 8, header);
  }

  /** The file's tail is its slice of the fragment block that the fragment table names. */
  ghost predicate FragmentMatches(c: Content, im: Image, fragBlocks: seq<nat>, headerOf: nat -> nat, entry: seq<Byte>) {
    && TableEntry(im, fragBlocks, FRAG_ENTRY_SIZE, c.f.ino.fragIdx) == Ok(entry) && |entry| == FRAG_ENTRY_SIZE
    && 0 < FragPos(entry) && headerOf(FragPos(entry)) == FragHeader(entry)
    && im.data(FragPos(entry), FragHeader(entry)).Some?
    && var block := im.data(FragPos(entry), FragHeader(entry)).value;
      && c.f.ino.fragOff + |c.tail| <= |block|
      && c.tail == block[c.f.ino.fragOff..c.f.ino.fragOff + |c.tail|]
  }

  /** The copying part of a turn of the loop in sqfs_read_range for a block: zeros for a hole, the
      cached block otherwise, from `readOff` on, up to `left` bytes. */
  method CopyBlock(data: BlockCache, ghost im: Image, blockSize: nat, ino: Inode, s: State, readOff: nat, left: nat,
                   ghost c: Content, ghost k: nat)
    returns (r: Result<seq<Byte>>)
    requires data.Valid() && ServesData(data, im)
    requires c.Decodes() && k < c.f.Count() && c.f.ino == ino && c.f.blockSize == blockSize && s == c.f.After(k)
    requires c.store == im.data && HeaderMatches(c, data.headerOf, k)
    requires readOff < c.Length(k)
    modifies data.Repr()
    ensures data.Valid() && data.held == old(data.held)
    ensures r.Ok? ==> r.value == c.Block(k)[readOff..readOff + Min(c.Length(k) - readOff, left)]
    ensures r.Ok? ==> data.failed == old(data.failed)
    ensures r.Err? ==> r == Err(AssertFailed) && old(data.failed)
  {
    assert c.Decoded(k);
    c.Limits(k);
    var block: seq<Byte>;
    if s.inputSize == 0 {
      var size := ino.fileSize - s.pos;
      if size > blockSize {
        size := blockSize;
      }
      block := Zeros(size);
    } else {
      var got := DataCopy(data, im, s.block, s.header);
      if got.Err? {
        return Err(got.error);
      }
      block := got.value;
    }
    var take := |block| - readOff;
    if take > left {
      take := left;
    }
    return Ok(block[readOff..readOff + take]);
  }

  /** sqfs_frag_entry and sqfs_frag_block: the block that holds the file's fragment. */
  method FragBlock(md: BlockCache, frag: BlockCache, ghost im: Image, fragBlocks: seq<nat>, ino: Inode,
                   ghost c: Content, ghost entry: seq<Byte>)
    returns (r: Result<seq<Byte>>)
    requires md.Valid() && Serves(md, im) && frag.Valid() && ServesData(frag, im) && md.Repr() !! frag.Repr()
    requires c.f.ino == ino && FragmentMatches(c, im, fragBlocks, frag.headerOf, entry)
    requires forall i | 0 <= i < |fragBlocks| :: 0 < fragBlocks[i]
    modifies md.Repr(), frag.Repr()
    ensures md.Valid() && frag.Valid() && md.held == old(md.held) && frag.held == old(frag.held)
    ensures r.Ok? ==> im.data(FragPos(entry), FragHeader(entry)) == Some(r.value)
    ensures r.Ok? ==> md.failed == old(md.failed) && frag.failed == old(frag.failed)
    ensures r.Err? ==> r == Err(AssertFailed) && (old(md.failed) || old(frag.failed))
  {
    var e := TableGet(md, im, fragBlocks, FRAG_ENTRY_SIZE, ino.fragIdx);
    if e.Err? {
      return Err(e.error);
    }
    r := DataCopy(frag, im, U64(e.value, 0), U32(e.value, 8));
  }

  lemma TailSlice(c: Content, im: Image, fragBlocks: seq<nat>, headerOf: nat -> nat, entry: seq<Byte>, from: nat,
                  to: nat)
    requires FragmentMatches(c, im, fragBlocks, headerOf, entry) && from <= to <= |c.tail|
    ensures var block := im.data(FragPos(entry), FragHeader(entry)).value;
            c.f.ino.fragOff + to <= |block| && block[c.f.ino.fragOff + from..c.f.ino.fragOff + to] == c.tail[from..to]
  {
    SubSlice(im.data(FragPos(entry), FragHeader(entry)).value, c.f.ino.fragOff, |c.tail|, from, to);
  }

  /** The copying part of the last turn of the loop: the file's slice of its fragment, from `readOff`
      on, up to `left` bytes. */
  method CopyFragment(md: BlockCache, frag: BlockCache, ghost im: Image, fragBlocks: seq<nat>, blockSize: nat,
                      ino: Inode, readOff: nat, left: nat, ghost c: Content, ghost entry: seq<Byte>)
    returns (r: Result<seq<Byte>>)
    requires md.Valid() && Serves(md, im) && frag.Valid() && ServesData(frag, im) && md.Repr() !! frag.Repr()
    requires c.f.ino == ino && FragmentMatches(c, im, fragBlocks, frag.headerOf, entry)
    requires forall i | 0 <= i < |fragBlocks| :: 0 < fragBlocks[i]
    requires 0 < blockSize && |c.tail| == Rem(ino.fileSize, blockSize) && readOff <= |c.tail|
    modifies md.Repr(), frag.Repr()
    ensures md.Valid() && frag.Valid() && md.held == old(md.held) && frag.held == old(frag.held)
    ensures r.Ok? ==> r.value == c.tail[readOff..readOff + Min(|c.tail| - readOff, left)]
    ensures r.Ok? ==> md.failed == old(md.failed) && frag.failed == old(frag.failed)
    ensures r.Err? ==> r == Err(AssertFailed) && (old(md.failed) || old(frag.failed))
  {
    var got := FragBlock(md, frag, im, fragBlocks, ino, c, entry);
    if got.Err? {
      return Err(got.error);
    }
    QuotRem(ino.fileSize, blockSize);
    var dataOff, dataSize := ino.fragOff, ino.fileSize % blockSize;
    var take := dataSize - readOff;
    if take > left {
      take := left;
    }
    TailSlice(c, im, fragBlocks, frag.headerOf, entry, readOff, readOff + take);
    return Ok(got.value[dataOff + readOff..dataOff + (readOff + take)]);
  }

  /** What makes `c` the file of `ino`: its list, its blocks and its fragment are in the image. */
  ghost predicate IsContentOf(c: Content, ino: Inode, fs: FileSystem, entry: seq<Byte>) {
    && IsFileOf(c.f, fs.im, fs.sb.blockSize) && c.f.ino == ino
    && c.Decodes() && c.store == fs.im.data
    && HeadersMatch(c, fs.data.headerOf)
    && (c.InFragment() ==> FragmentMatches(c, fs.im, fs.sb.fragBlocks, fs.frag.headerOf, entry))
    && forall i | 0 <= i < |fs.sb.fragBlocks| :: 0 < fs.sb.fragBlocks[i]
  }

  /** The state of the loop of sqfs_read_range between turns. */
  ghost predicate Looping(c: Content, start: nat, b: nat, k: nat, readOff: nat, left: nat, out: seq<Byte>, s: State)
    requires c.Decodes()
  {
    SoFar(c, start, out) && (0 < left ==> c.f.Stands(k, s) && Reading(c, start, b, k, readOff, out))
  }

  lemma LoopBegins(c: Content, start: nat, k: nat, left: nat, s: State)
    requires c.Decodes() && start < c.f.ino.fileSize && k <= Quot(start, c.f.blockSize) && c.f.Stands(k, s)
    ensures Looping(c, start, Quot(start, c.f.blockSize), k, Rem(start, c.f.blockSize), left, [], s)
  {
    BeginAt(c, start, k);
  }

  lemma PassLoops(c: Content, start: nat, b: nat, k: nat, readOff: nat, left: nat, out: seq<Byte>, s: State)
    requires c.Decodes() && Reading(c, start, b, k, readOff, out) && k < c.f.Count()
    requires Pos(c.f.blockSize, k) + c.f.blockSize <= start && c.f.At(k + 1, s)
    ensures Looping(c, start, b, k + 1, readOff, left, out, s)
  {
    Pass(c, start, b, k, readOff, out);
  }

  lemma CopyLoops(c: Content, start: nat, k: nat, readOff: nat, left: nat, out: seq<Byte>, chunk: seq<Byte>, s: State)
    requires c.Decodes() && Reading(c, start, k, k, readOff, out) && k < c.f.Count() && 0 < left
    requires readOff < c.Length(k) && Pos(c.f.blockSize, k) + readOff == start + |out|
    requires chunk == c.Block(k)[readOff..readOff + Min(c.Length(k) - readOff, left)] && c.f.At(k + 1, s)
    ensures |chunk| <= left && Looping(c, start, k + 1, k + 1, 0, left - |chunk|, out + chunk, s)
  {
    Copy(c, start, k, readOff, out, left, chunk);
  }

  lemma NoneLeft(c: Content, start: nat, b: nat, k: nat, readOff: nat, left: nat, out: seq<Byte>, s: State)
    requires c.Decodes() && Looping(c, start, b, k, readOff, left, out, s) && 0 < left && s.remain == 0
    ensures Reading(c, start, b, c.f.Count(), readOff, out)
  {
  }

  lemma SomeLeft(c: Content, start: nat, b: nat, k: nat, readOff: nat, left: nat, out: seq<Byte>, s: State)
    requires c.Decodes() && Looping(c, start, b, k, readOff, left, out, s) && 0 < left && 0 < s.remain
    ensures c.f.At(k, s) && k < c.f.Count() && Reading(c, start, b, k, readOff, out)
  {
  }

  type Handles = (multiset<Handle>, multiset<Handle>, multiset<Handle>)

  /** The caches as the loop leaves them: the blocks held are those held before, and nothing has failed if nothing
      had failed before. */
  ghost predicate Kept(fs: FileSystem, held: Handles, ready: bool)
    reads fs.Repr()
  {
    fs.Valid() && fs.Held() == held && (ready ==> fs.Ready())
  }

  /** The last turn of the loop of sqfs_read_range, when no block is left: the fragment's bytes, or none without a
      fragment. */
  method TailTurn(fs: FileSystem, ino: Inode, start: nat, readOff: nat, left: nat, out: seq<Byte>, ghost c: Content,
                  ghost entry: seq<Byte>, ghost b: nat, ghost k: nat, ghost s: State, ghost held: Handles,
                  ghost ready: bool)
    returns (r: Result<seq<Byte>>)
    requires Kept(fs, held, ready) == true && IsContentOf(c, ino, fs, entry) == true
    requires Looping(c, start, b, k, readOff, left, out, s) == true && 0 < left && s.remain == 0
    modifies fs.Repr()
    ensures Kept(fs, held, ready) == true
    ensures r.Ok? ==> SoFar(c, start, r.value) == true && |r.value| == Min(left + |out|, ino.fileSize - start)
    ensures r.Err? ==> r == Err(AssertFailed) && !ready
  {
    NoneLeft(c, start, b, k, readOff, left, out, s);
    if ino.fragIdx == INVALID_FRAG {
      NoTail(c, start, b, readOff, out);
      return Ok(out);
    }
    TailFrom(c, start, b, readOff, out);
    r := CopyFragment(fs.md, fs.frag, fs.im, fs.sb.fragBlocks, fs.sb.blockSize, ino, readOff, left, c, entry);
    if r.Ok? {
      TailTo(c, start, b, readOff, out, left, r.value);
      r := Ok(out + r.value);
    }
  }

  /** The variables of the loop: where the next byte is in its block, how many are wanted, and those copied. */
  datatype Wants = Wants(readOff: nat, left: nat, out: seq<Byte>)

  /** The rest of a turn, once the list has gone on: a block before `start` is passed over; of any other, bytes are
      copied. */
  method CopyTurn(data: BlockCache, ghost im: Image, blockSize: nat, ino: Inode, s: State, start: nat, readOff: nat,
                  left: nat, out: seq<Byte>, ghost c: Content, ghost b: nat, ghost k: nat)
    returns (r: Result<Wants>, ghost next: nat)
    requires data.Valid() && ServesData(data, im)
    requires c.Decodes() && c.f.ino == ino && c.f.blockSize == blockSize && c.store == im.data
    requires HeadersMatch(c, data.headerOf)
    requires k < c.f.Count() && s == c.f.After(k) && c.f.At(k + 1, s) && Reading(c, start, b, k, readOff, out) &&
             0 < left
    modifies data.Repr()
    ensures data.Valid() && data.held == old(data.held)
    ensures r.Ok? ==> data.failed == old(data.failed)
    ensures r.Ok? ==> Looping(c, start, next, k + 1, r.value.readOff, r.value.left, r.value.out, s) == true
    ensures r.Ok? ==> r.value.left + |r.value.out| == left + |out|
    ensures r.Err? ==> r == Err(AssertFailed) && old(data.failed)
  {
    if s.pos + blockSize <= start {
      PassLoops(c, start, b, k, readOff, left, out, s);
      return Ok(Wants(readOff, left, out)), b;
    }
    Meet(c, start, b, k, readOff, out);
    assert HeaderMatches(c, data.headerOf, k);
    var chunk := CopyBlock(data, im, blockSize, ino, s, readOff, left, c, k);
    if chunk.Err? {
      return Err(chunk.error), b;
    }
    CopyLoops(c, start, k, readOff, left, out, chunk.value, s);
    return Ok(Wants(0, left - |chunk.value|, out + chunk.value)), k + 1;
  }

  /** A turn while blocks are left: the list goes on, and bytes are copied from `start` on. */
  method BlockTurn(bl: BlockList, data: BlockCache, ghost im: Image, ino: Inode, start: nat, readOff: nat, left: nat,
                   out: seq<Byte>, ghost c: Content, ghost b: nat, ghost k: nat)
    returns (r: Result<Wants>, ghost next: nat)
    requires bl.md.Valid() && Serves(bl.md, im) && data.Valid() && ServesData(data, im)
    requires bl.md.Repr() !! data.Repr() && bl !in bl.md.Repr() + data.Repr()
    requires IsFileOf(c.f, im, bl.blockSize) && c.f.ino == ino && c.Decodes() && c.store == im.data
    requires HeadersMatch(c, data.headerOf)
    requires c.f.At(k, bl.s) && k < c.f.Count() && Reading(c, start, b, k, readOff, out) && 0 < left
    modifies bl, bl.md.Repr(), data.Repr()
    ensures bl.md.Valid() && data.Valid() && bl.md.held == old(bl.md.held) && data.held == old(data.held)
    ensures r.Ok? ==> bl.md.failed == old(bl.md.failed) && data.failed == old(data.failed)
    ensures r.Ok? ==> Looping(c, start, next, k + 1, r.value.readOff, r.value.left, r.value.out, bl.s) == true
    ensures r.Ok? ==> r.value.left + |r.value.out| == left + |out|
    ensures r.Err? ==> r == Err(AssertFailed) && (old(bl.md.failed) || old(data.failed))
  {
    var step := StepOver(bl, im, c.f, k);
    if step.Err? {
      return Err(step.error), b;
    }
    r, next := CopyTurn(data, im, bl.blockSize, ino, bl.s, start, readOff, left, out, c, b, k);
  }

  /** Any other turn, with the caches of the file system. */
  method BlocksTurn(bl: BlockList, fs: FileSystem, ino: Inode, start: nat, readOff: nat, left: nat, out: seq<Byte>,
                    ghost c: Content, ghost entry: seq<Byte>, ghost b: nat, ghost k: nat, ghost held: Handles,
                    ghost ready: bool)
    returns (r: Result<Wants>, ghost next: nat)
    requires Kept(fs, held, ready) == true && IsContentOf(c, ino, fs, entry) == true && bl !in fs.Repr()
    requires bl.md == fs.md && bl.blockSize == fs.sb.blockSize
    requires Looping(c, start, b, k, readOff, left, out, bl.s) == true && 0 < left && 0 < bl.s.remain
    modifies bl, fs.Repr()
    ensures Kept(fs, held, ready) == true && k < c.f.Count()
    ensures r.Ok? ==> Looping(c, start, next, k + 1, r.value.readOff, r.value.left, r.value.out, bl.s) == true
    ensures r.Ok? ==> r.value.left + |r.value.out| == left + |out|
    ensures r.Err? ==> r == Err(AssertFailed) && !ready
  {
    SomeLeft(c, start, b, k, readOff, left, out, bl.s);
    r, next := BlockTurn(bl, fs.data, fs.im, ino, start, readOff, left, out, c, b, k);
  }

  /** The loop of sqfs_read_range: from the list as Seek left it to the bytes wanted. */
  method CopyRange(bl: BlockList, fs: FileSystem, ino: Inode, start: nat, size: nat, offset: nat, ghost c: Content,
                   ghost entry: seq<Byte>, ghost b0: nat, ghost k0: nat)
    returns (r: Result<seq<Byte>>)
    requires fs.Valid() && IsContentOf(c, ino, fs, entry) && start < ino.fileSize && bl !in fs.Repr()
    requires bl.md == fs.md && bl.blockSize == fs.sb.blockSize
    requires Looping(c, start, b0, k0, offset, size, [], bl.s)
    modifies bl, fs.Repr()
    ensures fs.Valid() == true && fs.Held() == old(fs.Held())
    ensures r.Ok? ==> SoFar(c, start, r.value) == true && |r.value| == Min(size, ino.fileSize - start)
    ensures r.Err? ==> r == Err(AssertFailed)
    ensures old(fs.Ready()) ==> r.Ok? && fs.Ready() == true
  {
    ghost var b: nat, k: nat := b0, k0;
    ghost var held, ready := fs.Held(), fs.Ready();
    var readOff: nat, left: nat, out: seq<Byte> := offset, size, [];
    while left > 0
      invariant Kept(fs, held, ready) == true
      invariant left + |out| == size && Looping(c, start, b, k, readOff, left, out, bl.s) == true
      decreases c.f.Count() - k
    {
      if bl.s.remain == 0 {
        r := TailTurn(fs, ino, start, readOff, left, out, c, entry, b, k, bl.s, held, ready);
        return;
      }
      var turn;
      turn, b := BlocksTurn(bl, fs, ino, start, readOff, left, out, c, entry, b, k, held, ready);
      if turn.Err? {
        return Err(turn.error);
      }
      readOff, left, out, k := turn.value.readOff, turn.value.left, turn.value.out, k + 1;
      assert Looping(c, start, b, k, readOff, left, out, bl.s) == true;
    }
    return Ok(out);
  }

  /** struct sqfs as far as reading files goes: the block caches and the index cache. */
  class FileStore {
    const fs: FileSystem
    const index: Cache<seq<IdxEntry>>
    /** The regular files of the image by inode number, and the entries of the fragment table that
        their tails are in. */
    ghost const files: nat -> Info
    ghost const fragEntry: nat -> seq<Byte>

    ghost function Repr(): set<object> {
      fs.Repr() + {index, index.slots}
    }

    ghost predicate Valid()
      reads Repr()
    {
      && fs.Valid() && index.Valid()
      && {index, index.slots} !! fs.Repr()
      && IndexesFiles(index.slots[..], files)
    }

    /** No earlier read has failed. */
    ghost predicate Ready()
      reads Repr()
    {
      fs.Ready() && Settled(index.slots[..])
    }

    ghost predicate IsFile(ino: Inode) {
      IsContentOf(files(ino.number).c, ino, fs, fragEntry(ino.number))
    }

    constructor (fs: FileSystem, indexSlots: nat, ghost files: nat -> Info, ghost fragEntry: nat -> seq<Byte>)
      requires fs.Valid() && 0 < indexSlots
      ensures Valid() && this.fs == fs && this.files == files && this.fragEntry == fragEntry
      ensures fresh(Repr() - fs.Repr()) && (fs.Ready() ==> Ready())
    {
      this.fs := fs;
      index := new Cache(indexSlots, []);
      this.files := files;
      this.fragEntry := fragEntry;
    }

    /** The file of an inode: its content, and where its block list lies in the inode table. */
    ghost predicate IsRegular(ino: Inode) {
      && IsFile(ino)
      && IsListOf(files(ino.number), ino, fs.im, fs.sb.blockSize) && files(ino.number).pl.tableStart == fs.sb.inodeTable
    }

    /** The first part of sqfs_read_range behind its checks: the list, forwarded towards `start`. */
    method OpenAt(ino: Inode, start: nat, ghost size: nat) returns (r: Result<BlockList>, ghost k: nat)
      requires Valid() && IsRegular(ino) && start < ino.fileSize
      modifies Repr()
      ensures Valid() == true && fs.Held() == old(fs.Held())
      ensures r.Ok? ==> fresh(r.value) && r.value.md == fs.md && r.value.blockSize == fs.sb.blockSize
      ensures r.Ok? ==>
                Looping(files(ino.number).c, start, Quot(start, fs.sb.blockSize), k, Rem(start, fs.sb.blockSize), size,
                        [], r.value.s) == true
      ensures r.Err? ==> r == Err(AssertFailed)
      ensures old(Ready()) ==> Ready() == true && (r.Ok? || Poisoned(old(index.slots[..]), KeyOf(ino.number)))
    {
      r, k := Seek(fs.md, fs.im, fs.sb.blockSize, fs.sb.inodeTable, index, files, ino, start);
      if r.Ok? {
        LoopBegins(files(ino.number).c, start, k, size, r.value.s);
      }
    }

    /** All of sqfs_read_range behind its checks: seek, then copy. */
    method SeekAndCopy(ino: Inode, start: nat, size: nat) returns (r: Result<seq<Byte>>)
      requires Valid() && IsRegular(ino) && start < ino.fileSize
      modifies Repr()
      ensures Valid() == true && fs.Held() == old(fs.Held())
      ensures r.Ok? ==> SoFar(files(ino.number).c, start, r.value) && |r.value| == Min(size, ino.fileSize - start)
      ensures r.Err? ==> r == Err(AssertFailed)
      ensures old(Ready()) ==> Ready() == true && (r.Ok? || Poisoned(old(index.slots[..]), KeyOf(ino.number)))
    {
      var bl;
      ghost var k;
      bl, k := OpenAt(ino, start, size);
      if bl.Err? {
        return Err(bl.error);
      }
      var readOff := Modulo(start, fs.sb.blockSize);
      r := CopyRange(bl.value, fs, ino, start, size, readOff, files(ino.number).c, fragEntry(ino.number),
                     Quot(start, fs.sb.blockSize), k);
    }

    /** sqfs_read_range: exactly the bytes of the file from `start` on, `size` of them or up to the
        end, whether or not the list is searched through an index and whatever the caches hold. A
        request beyond the end is refused, one at the end yields nothing, one for no bytes fails. */
    method ReadRange(ino: Inode, start: nat, size: int) returns (r: Result<seq<Byte>>)
      requires Valid() && (ino.regular ==> IsRegular(ino))
      modifies Repr()
      ensures Valid() == true && fs.Held() == old(fs.Held())
      ensures !ino.regular || size < 0 || start > ino.fileSize ==> r == Err(Invalid)
      ensures ino.regular && size >= 0 && start == ino.fileSize ==> r == Ok([])
      ensures ino.regular && size == 0 && start < ino.fileSize ==> r.Err?
      ensures ino.regular && size > 0 && start < ino.fileSize ==>
                || r == Ok(files(ino.number).c.Bytes()[start..Min(start + size, ino.fileSize)])
                || r == Err(AssertFailed)
      ensures old(Ready()) ==>
                Ready() == true && (r == Err(AssertFailed) ==> Poisoned(old(index.slots[..]), KeyOf(ino.number)))
    {
      if !ino.regular || size < 0 || start > ino.fileSize {
        r := Err(Invalid);
      } else if start == ino.fileSize {
        r := Ok([]);
      } else {
        r := SeekAndCopy(ino, start, size);
        if r.Ok? {
          Wanted(files(ino.number).c, start, size, r.value);
          if |r.value| == 0 {
            r := Err(Invalid);
          }
        }
      }
    }
  }
}
