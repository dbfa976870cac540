/** Seeking in a file: its block list, forwarded towards a byte, through the cached index if there is one.
    A clause `P() == true` is proved as one fact, and not conjunct by conjunct, which keeps the proofs quick. */
module FileReader {
  import opened Prelude
  import opened Image
  import opened SlotCache
  import opened Blocklist
  import opened BlockIndex
  import opened FileContent
  import opened Fs
  import opened Blocks
  import opened Reader

  const LAST_NUMBER := 0xffff_ffff

  /** A regular file of the image, with what it holds and where its block list lies. */
  datatype Info = Info(c: Content, pl: Placement)

  ghost predicate IsListOf(info: Info, ino: Inode, im: Image, blockSize: nat) {
    && info.c.f.ino == ino && ino.regular && ino.number < TWO32
    && IsFileOf(info.c.f, im, blockSize)
    && Placed(info.c.f, info.pl)
  }

  /** The 32-bit field of an index entry loses nothing of a metadata position. */
  lemma FitsWord(info: Info, k: nat)
    requires 0 < info.c.f.blockSize && Placed(info.c.f, info.pl) && k < info.c.f.Count()
    ensures info.pl.tableStart <= info.c.f.cursor(k).block
    ensures (info.c.f.cursor(k).block - info.pl.tableStart) % 0x1_0000_0000 ==
            info.c.f.cursor(k).block - info.pl.tableStart
  {
    CursorOf(info.c.f, info.pl, k);
  }

  /** Part of the loop of sqfs_blockidx_add: if the list is at the start of a metadata block, other
      than the very first, note where it and its data are. */
  method NoteBlock(idx: array<IdxEntry>, i: nat, first: bool, s: State, tableStart: nat, ghost info: Info, ghost k: nat)
    returns (j: nat)
    requires 0 < info.c.f.blockSize && Placed(info.c.f, info.pl) && info.pl.tableStart == tableStart
    requires k < info.c.f.Count() && info.c.f.At(k, s) && (first <==> k == 0)
    requires 0 < info.c.f.Count() && idx.Length == IndexLength(info.pl.off, info.c.f.Count()) && i < idx.Length
    requires FilledTo(info.c.f, info.pl, idx[..], k, i)
    modifies idx
    ensures FilledTo(info.c.f, info.pl, idx[..], k + 1, j)
  {
    ghost var before := idx[..];
    FitsWord(info, k);
    FillSlot(info.c.f, info.pl, before, k, i, s);
    j := i;
    if s.cur.offset < ENTRY_SIZE && !first {
      var e := IdxEntry(s.block + s.inputSize, (s.cur.block - tableStart) % 0x1_0000_0000);
      idx[i] := e;
      assert idx[..] == before[i := e];
      j := i + 1;
    }
  }

  /** How far the loop of sqfs_blockidx_add has come. */
  ghost predicate Building(info: Info, idx: seq<IdxEntry>, k: nat, i: nat, s: State)
    requires 0 < info.c.f.blockSize && Placed(info.c.f, info.pl)
  {
    info.c.f.At(k, s) && FilledTo(info.c.f, info.pl, idx, k, i)
  }

  /** One turn of that loop. */
  method IndexTurn(bl: BlockList, ghost im: Image, idx: array<IdxEntry>, i: nat, first: bool, tableStart: nat,
                   ghost info: Info, ghost k: nat)
    returns (r: Result<nat>)
    requires bl.md.Valid() == true && Serves(bl.md, im) == true && bl !in bl.md.Repr() && idx !in bl.md.Repr()
    requires IsListOf(info, info.c.f.ino, im, bl.blockSize) == true && info.pl.tableStart == tableStart
    requires 0 < bl.s.remain && (first <==> k == 0)
    requires 0 < info.c.f.Count() && idx.Length == IndexLength(info.pl.off, info.c.f.Count()) && i < idx.Length
    requires Building(info, idx[..], k, i, bl.s) == true
    modifies bl, idx, bl.md.Repr()
    ensures bl.md.Valid() == true && bl.md.held == old(bl.md.held)
    ensures r.Ok? ==> Building(info, idx[..], k + 1, r.value, bl.s) == true && bl.md.failed == old(bl.md.failed)
    ensures r.Ok? ==> bl.s.remain < old(bl.s.remain)
    ensures r.Err? ==> r == Err(AssertFailed) && old(bl.md.failed)
  {
    var j := NoteBlock(idx, i, first, bl.s, tableStart, info, k);
    ghost var noted := idx[..];
    var step := StepOver(bl, im, info.c.f, k);
    assert idx[..] == noted;
    r := if step.Ok? then Ok(j) else Err(step.error);
  }

  /** The loop of sqfs_blockidx_add: steps over the whole list until it ends or the index is full. */
  method FillIndex(bl: BlockList, ghost im: Image, idx: array<IdxEntry>, tableStart: nat, ghost info: Info)
    returns (r: Result<()>, ghost k: nat, ghost filled: nat)
    requires bl.md.Valid() == true && Serves(bl.md, im) == true && bl !in bl.md.Repr() && idx !in bl.md.Repr()
    requires IsListOf(info, info.c.f.ino, im, bl.blockSize) == true && info.pl.tableStart == tableStart
    requires 0 < info.c.f.Count() && idx.Length == IndexLength(info.pl.off, info.c.f.Count())
    requires Building(info, idx[..], 0, 0, bl.s) == true
    modifies bl, idx, bl.md.Repr()
    ensures bl.md.Valid() == true && bl.md.held == old(bl.md.held)
    ensures r.Ok? ==> Building(info, idx[..], k, filled, bl.s) == true && bl.md.failed == old(bl.md.failed)
    ensures r.Ok? ==> bl.s.remain == 0 || filled == idx.Length
    ensures r.Err? ==> r == Err(AssertFailed) && old(bl.md.failed)
  {
    var i: nat, first := 0, true;
    k := 0;
    while bl.s.remain > 0 && i < idx.Length
      invariant bl.md.Valid() == true && bl.md.held == old(bl.md.held) && bl.md.failed == old(bl.md.failed)
      invariant Building(info, idx[..], k, i, bl.s) == true
      invariant first <==> k == 0
      decreases bl.s.remain
    {
      var turn := IndexTurn(bl, im, idx, i, first, tableStart, info, k);
      if turn.Err? {
        return Err(turn.error), k, i;
      }
      i, first, k := turn.value, false, k + 1;
    }
    return Ok(()), k, i;
  }

  /** sqfs_blockidx_add: an index of the file, noting where each metadata block of its list begins. */
  method BuildIndex(md: BlockCache, ghost im: Image, blockSize: nat, tableStart: nat, ino: Inode, ghost info: Info)
    returns (r: Result<seq<IdxEntry>>)
    requires md.Valid() && Serves(md, im)
    requires IsListOf(info, ino, im, blockSize) && info.pl.tableStart == tableStart && 0 < info.c.f.Count()
    modifies md.Repr()
    ensures md.Valid() && md.held == old(md.held)
    ensures r.Ok? ==> IsIndex(info.c.f, info.pl, r.value) && md.failed == old(md.failed)
    ensures r.Err? ==> r == Err(AssertFailed) && old(md.failed)
  {
    var blocks := CountBlocks(blockSize, ino);
    var mdSize := blocks * ENTRY_SIZE;
    var count := (ino.next.offset + mdSize - 1) / METADATA_SIZE;
    var idx := new IdxEntry[count];
    var bl := new BlockList(md, blockSize, ino);
    info.c.f.StartAt();
    ghost var k, filled;
    var done;
    done, k, filled := FillIndex(bl, im, idx, tableStart, info);
    if done.Err? {
      return Err(done.error);
    }
    FilledIsIndex(info.c.f, info.pl, idx[..], k, filled);
    return Ok(idx[..]);
  }

  // ---- The index cache ----

  ghost predicate IndexFor(info: Info, idx: seq<IdxEntry>) {
    0 < info.c.f.blockSize && Placed(info.c.f, info.pl) && IsIndex(info.c.f, info.pl, idx)
  }

  /** The key of an inode in the index cache: its number plus one, in 32 bits. The key of the last number is that
      of an untouched slot. */
  function KeyOf(number: nat): (key: nat)
    requires number < TWO32
    ensures key == 0 <==> number == LAST_NUMBER
  {
    if number == LAST_NUMBER then 0 else number + 1
  }

  function NumberOf(key: nat): nat {
    if key == 0 then LAST_NUMBER else key - 1
  }

  /** Without failed reads, a lookup in the index cache asserts for no inode but the last, and for that one exactly if
      an untouched slot comes before any index of it: that is, as long as not every slot has been filled. */
  lemma OnlyLastAborts(slots: seq<Slot<seq<IdxEntry>>>, number: nat)
    requires number < TWO32 && Clean(slots)
    ensures Poisoned(slots, KeyOf(number)) <==>
            number == LAST_NUMBER &&
            exists i | 0 <= i < |slots| ::
              !slots[i].valid && forall j | 0 <= j < i :: !(slots[j].valid && slots[j].key == 0)
    ensures Settled(slots) ==>
              (Poisoned(slots, KeyOf(number)) <==>
                 number == LAST_NUMBER && exists i | 0 <= i < |slots| :: !slots[i].valid)
  {
    if number == LAST_NUMBER {
      ZeroPoisoned(slots);
    } else {
      CleanNotPoisoned(slots, KeyOf(number));
    }
  }

  /** A slot holds an index of the file whose inode its key is for. */
  ghost predicate IndexesFiles(slots: seq<Slot<seq<IdxEntry>>>, files: nat -> Info) {
    forall i | 0 <= i < |slots| && slots[i].valid :: IndexFor(files(NumberOf(slots[i].key)), slots[i].entry)
  }

  lemma IndexesUpdate(slots: seq<Slot<seq<IdxEntry>>>, files: nat -> Info, i: nat, s: Slot<seq<IdxEntry>>)
    requires IndexesFiles(slots, files) && i < |slots|
    requires s.valid ==> IndexFor(files(NumberOf(s.key)), s.entry)
    ensures IndexesFiles(slots[i := s], files)
  {
  }

  /** The cached index of a file, built on a miss; an evicted index is freed with its slot. */
  method CachedIndex(md: BlockCache, ghost im: Image, blockSize: nat, tableStart: nat,
                     index: Cache<seq<IdxEntry>>, ghost files: nat -> Info, ino: Inode)
    returns (r: Result<seq<IdxEntry>>)
    requires md.Valid() && Serves(md, im)
    requires index.Valid() && IndexesFiles(index.slots[..], files) && {index, index.slots} !! md.Repr()
    requires IsListOf(files(ino.number), ino, im, blockSize) && files(ino.number).pl.tableStart == tableStart
    requires 0 < files(ino.number).c.f.Count()
    modifies md.Repr(), index, index.slots
    ensures md.Valid() && md.held == old(md.held)
    ensures index.Valid() && IndexesFiles(index.slots[..], files)
    ensures r.Ok? ==> IndexFor(files(ino.number), r.value) && md.failed == old(md.failed)
    ensures r.Ok? && old(Settled(index.slots[..])) ==> Settled(index.slots[..])
    ensures r.Err? ==> r == Err(AssertFailed) && (old(md.failed) || Poisoned(old(index.slots[..]), KeyOf(ino.number)))
    ensures r.Err? && !old(md.failed) ==> !md.failed && index.slots[..] == old(index.slots[..])
  {
    var slot := IndexSlot(index, files, ino);
    if slot.None? {
      return Err(AssertFailed);
    }
    if index.slots[slot.value].valid {
      assert index.slots[..][slot.value].valid;
      return Ok(index.slots[slot.value].entry);
    }
    ghost var taken := index.slots[..];
    r := BuildIndex(md, im, blockSize, tableStart, ino, files(ino.number));
    assert index.slots[..] == taken;
    if r.Ok? {
      IndexesUpdate(taken, files, slot.value, Slot(true, taken[slot.value].key, r.value));
      index.Fill(slot.value, r.value);
    }
  }

  /** sqfs_cache_get on the index cache: the slot for an inode, valid or ready to be filled. */
  method IndexSlot(index: Cache<seq<IdxEntry>>, ghost files: nat -> Info, ino: Inode) returns (slot: Option<nat>)
    requires index.Valid() && IndexesFiles(index.slots[..], files) && ino.number < TWO32
    modifies index, index.slots
    ensures index.Valid() && IndexesFiles(index.slots[..], files)
    ensures slot.None? <==> Poisoned(old(index.slots[..]), KeyOf(ino.number))
    ensures slot.None? ==> index.slots[..] == old(index.slots[..])
    ensures slot.Some? ==>
              && slot.value < index.slots.Length
              && index.slots[slot.value].key == KeyOf(ino.number)
              && forall i | 0 <= i < index.slots.Length && i != slot.value :: index.slots[i] == old(index.slots[i])
    ensures slot.Some? && index.slots[slot.value].valid ==> index.slots[..] == old(index.slots[..])
    ensures slot.Some? && !index.slots[slot.value].valid ==> !HasKey(old(index.slots[..]), KeyOf(ino.number))
  {
    ghost var before := index.slots[..];
    var key := (ino.number + 1) % TWO32;
    var look := index.Get(key);
    match look
    case Abort =>
      return None;
    case Hit(i) =>
      return Some(i);
    case Fresh(i, _) =>
      IndexesUpdate(before, files, i, Slot(false, key, before[i].entry));
      return Some(i);
  }

  /** sqfs_blockidx_blocklist: the list of a file, forwarded towards the block that holds byte
      `start`. It stands k blocks into the file, not beyond that block, as a scan of k steps would. */
  method Seek(md: BlockCache, ghost im: Image, blockSize: nat, tableStart: nat,
              index: Cache<seq<IdxEntry>>, ghost files: nat -> Info, ino: Inode, start: nat)
    returns (r: Result<BlockList>, ghost k: nat)
    requires md.Valid() && Serves(md, im)
    requires index.Valid() && IndexesFiles(index.slots[..], files) && {index, index.slots} !! md.Repr()
    requires IsListOf(files(ino.number), ino, im, blockSize) && files(ino.number).pl.tableStart == tableStart
    modifies md.Repr(), index, index.slots
    ensures md.Valid() && md.held == old(md.held)
    ensures index.Valid() && IndexesFiles(index.slots[..], files)
    ensures r.Ok? ==> fresh(r.value) && r.value.md == md && r.value.blockSize == blockSize
    ensures r.Ok? ==> files(ino.number).c.f.Stands(k, r.value.s) && k <= Quot(start, blockSize)
    ensures r.Ok? ==> md.failed == old(md.failed)
    ensures r.Ok? && old(Settled(index.slots[..])) ==> Settled(index.slots[..])
    ensures r.Err? ==> r == Err(AssertFailed) && (old(md.failed) || Poisoned(old(index.slots[..]), KeyOf(ino.number)))
    ensures r.Err? && !old(md.failed) ==> !md.failed && index.slots[..] == old(index.slots[..])
  {
    ghost var info := files(ino.number);
    var bl := new BlockList(md, blockSize, ino);
    info.c.f.StartAt();
    QuotRem(start, blockSize);
    var block := start / blockSize;
    if block > bl.s.remain {
      bl.s := bl.s.(remain := 0);
      return Ok(bl), info.c.f.Count();
    }
    var metablock := BlockOf(bl.s.cur.offset, block);
    if metablock == 0 {
      return Ok(bl), 0;
    }
    var indexable := Indexable(blockSize, ino);
    if !indexable {
      return Ok(bl), 0;
    }
    var got := CachedIndex(md, im, blockSize, tableStart, index, files, ino);
    if got.Err? {
      return Err(got.error), 0;
    }
    var e: IdxEntry := *;
    if metablock - 1 < |got.value| {
      e := got.value[metablock - 1];
    }
    bl.s, k := JumpTo(bl.s, blockSize, metablock, tableStart, e, info, got.value, block);
    return Ok(bl), k;
  }

  /** The last part of Seek: sets the list up from the slot read for `metablock`. */
  method JumpTo(s: State, blockSize: nat, metablock: nat, tableStart: nat, slot: IdxEntry,
                ghost info: Info, ghost idx: seq<IdxEntry>, ghost block: nat)
    returns (t: State, ghost k: nat)
    requires info.c.f.blockSize == blockSize && info.c.f.Listed() && IndexFor(info, idx)
    requires info.pl.tableStart == tableStart && s == Start(blockSize, info.c.f.ino)
    requires metablock == BlockOf(info.pl.off, block) && 0 < metablock && block <= info.c.f.Count()
    requires metablock <= |idx| ==> slot == idx[metablock - 1]
    ensures info.c.f.Count() - block <= t.remain <= info.c.f.Count()
    ensures info.c.f.Stands(k, t) && k <= block
  {
    JumpLands(info.c.f, info.pl, idx, block, slot);
    var skipped := metablock * METADATA_SIZE / ENTRY_SIZE - s.cur.offset / ENTRY_SIZE;
    k := skipped;
    t := s.(cur := Cursor(slot.mdBlock + tableStart, s.cur.offset % ENTRY_SIZE), remain := s.remain - skipped,
            pos := skipped * blockSize, block := slot.dataBlock);
  }

  /** sqfs_blockidx_indexable: the file is so long that its block list fills at least a metadata block. */
  method Indexable(blockSize: nat, ino: Inode) returns (b: bool)
    requires 0 < blockSize
    ensures b <==> if ino.fragIdx == INVALID_FRAG then ino.fileSize > (ENTRIES_PER_MD_BLOCK - 1) * blockSize
                   else ino.fileSize >= ENTRIES_PER_MD_BLOCK * blockSize
    ensures b ==> 0 < BlockCount(blockSize, ino)
  {
    var blocks := CountBlocks(blockSize, ino);
    MulMonotone(blocks + 1, ENTRIES_PER_MD_BLOCK, blockSize);
    MulMonotone(ENTRIES_PER_MD_BLOCK, blocks, blockSize);
    MulMonotone(blocks, ENTRIES_PER_MD_BLOCK - 1, blockSize);
    MulMonotone(ENTRIES_PER_MD_BLOCK - 1, blocks - 1, blockSize);
    b := blocks * ENTRY_SIZE >= METADATA_SIZE;
  }
}
