/** The skip index of a large file: which list entry starts each metadata block, and why jumping
    there is the same as scanning there. */
module BlockIndex {
  import opened Prelude
  import opened Image
  import opened Blocklist

  /** sqfs_blockidx_entry: a data block and the metadata block whose entries continue from it. */
  datatype IdxEntry = IdxEntry(dataBlock: nat, mdBlock: nat)

  /** Where a block list lies: it starts at byte `off` of metadata block 0 and goes on through
      blocks 1, 2, .. at positions `md`, all behind `tableStart`. */
  datatype Placement = Placement(off: nat, md: nat -> nat, tableStart: nat)

  /** The metadata block in which entry k starts. */
  function BlockOf(off: nat, k: nat): nat {
    (off + ENTRY_SIZE * k) / METADATA_SIZE
  }

  /** Entries may straddle two metadata blocks; a position fits 32 bits behind tableStart. */
  ghost predicate Placed(f: File, pl: Placement)
    requires 0 < f.blockSize
  {
    && pl.off < METADATA_SIZE
    && f.ino.next.offset == pl.off
    && (forall k, m: nat | 0 <= k < f.Count() &&
        METADATA_SIZE * m <= pl.off + ENTRY_SIZE * k < METADATA_SIZE * (m + 1) ::
          f.cursor(k) == Cursor(pl.md(m), pl.off + ENTRY_SIZE * k - METADATA_SIZE * m))
    && (forall m: nat :: pl.tableStart <= pl.md(m) < pl.tableStart + 0x1_0000_0000 && 0 < pl.md(m))
  }

  /** Entry k is at byte off + 4k of the list, counted in metadata blocks. */
  lemma CursorOf(f: File, pl: Placement, k: nat)
    requires 0 < f.blockSize && Placed(f, pl) && k < f.Count()
    ensures f.cursor(k) == Cursor(pl.md(BlockOf(pl.off, k)), (pl.off + ENTRY_SIZE * k) % METADATA_SIZE)
    ensures pl.tableStart <= f.cursor(k).block < pl.tableStart + 0x1_0000_0000
  {
    var m := BlockOf(pl.off, k);
    assert METADATA_SIZE * m <= pl.off + ENTRY_SIZE * k < METADATA_SIZE * (m + 1);
    assert pl.tableStart <= pl.md(m);
  }

  /** How many entries a jump to metadata block m skips. */
  function Skipped(off: nat, m: nat): int {
    m * METADATA_SIZE / ENTRY_SIZE - off / ENTRY_SIZE
  }

  /** The entry jumped to is the first one that starts in metadata block m, also when entries are
      not aligned to block boundaries; it starts off % 4 bytes into that block. */
  lemma SkippedIsFirst(off: nat, m: nat)
    requires off < METADATA_SIZE && 0 < m
    ensures 0 < Skipped(off, m)
    ensures off + ENTRY_SIZE * Skipped(off, m) == METADATA_SIZE * m + off % ENTRY_SIZE
    ensures BlockOf(off, Skipped(off, m)) == m && BlockOf(off, Skipped(off, m) - 1) < m
  {
    assert m * METADATA_SIZE / ENTRY_SIZE == ENTRIES_PER_MD_BLOCK * m;
  }

  /** A block's entry is behind the jump, and at the block count the jump lands at the end. */
  lemma SkippedAtMost(off: nat, k: nat)
    requires off < METADATA_SIZE && 0 < BlockOf(off, k)
    ensures 0 < Skipped(off, BlockOf(off, k)) <= k
  {
    SkippedIsFirst(off, BlockOf(off, k));
  }

  /** Number of index entries the C code allocates. */
  function IndexLength(off: nat, count: nat): nat
    requires 0 < count
  {
    (off + ENTRY_SIZE * count - 1) / METADATA_SIZE
  }

  /** The index entry for metadata block m. */
  ghost function SlotFor(f: File, pl: Placement, m: nat): IdxEntry
    requires 0 < f.blockSize && Placed(f, pl) && 0 < m
  {
    SkippedIsFirst(pl.off, m);
    IdxEntry(f.BlockPos(Skipped(pl.off, m)), pl.md(m) - pl.tableStart)
  }

  /** A complete index: the slot of every metadata block in which an entry starts is filled; other
      slots hold whatever malloc left there. */
  ghost predicate IsIndex(f: File, pl: Placement, idx: seq<IdxEntry>)
    requires 0 < f.blockSize && Placed(f, pl)
  {
    && 0 < f.Count()
    && |idx| == IndexLength(pl.off, f.Count())
    && (forall m | 0 < m <= |idx| && Skipped(pl.off, m) < f.Count() :: idx[m - 1] == SlotFor(f, pl, m))
  }

  /** The list that sqfs_blockidx_blocklist sets up from an index entry. */
  function Jump(f: State, blockSize: nat, off: nat, m: nat, tableStart: nat, e: IdxEntry): State
    requires 0 < m && off < METADATA_SIZE && Skipped(off, m) <= f.remain
  {
    SkippedIsFirst(off, m);
    var skipped: nat := Skipped(off, m);
    f.(remain := f.remain - skipped, cur := Cursor(e.mdBlock + tableStart, off % ENTRY_SIZE),
       pos := skipped * blockSize, block := e.dataBlock)
  }

  /** A jump through the index stands where a scan of `skipped` steps would stand. */
  lemma JumpAt(f: File, pl: Placement, idx: seq<IdxEntry>, m: nat)
    requires f.Listed() && Placed(f, pl) && IsIndex(f, pl, idx)
    requires 0 < m <= |idx| && Skipped(pl.off, m) < f.Count()
    ensures 0 < Skipped(pl.off, m)
    ensures f.At(Skipped(pl.off, m), Jump(Start(f.blockSize, f.ino), f.blockSize, pl.off, m, pl.tableStart, idx[m - 1]))
  {
    SkippedIsFirst(pl.off, m);
    var k: nat := Skipped(pl.off, m);
    PosMul(f.blockSize, k);
    assert idx[m - 1] == SlotFor(f, pl, m);
    assert f.cursor(k) == Cursor(pl.md(m), pl.off % ENTRY_SIZE);
  }

  /** A block of the file has its index entry inside the index. */
  lemma SlotInside(off: nat, count: nat, k: nat)
    requires off < METADATA_SIZE && k < count
    ensures BlockOf(off, k) <= IndexLength(off, count)
  {
  }

  /** The list as it is after jumping towards `block`. */
  ghost function Jumped(f: File, pl: Placement, idx: seq<IdxEntry>, block: nat): State
    requires f.Listed() && Placed(f, pl) && IsIndex(f, pl, idx)
    requires block < f.Count() && 0 < BlockOf(pl.off, block)
  {
    SkippedAtMost(pl.off, block);
    SlotInside(pl.off, f.Count(), block);
    var m := BlockOf(pl.off, block);
    Jump(Start(f.blockSize, f.ino), f.blockSize, pl.off, m, pl.tableStart, idx[m - 1])
  }

  lemma JumpedAt(f: File, pl: Placement, idx: seq<IdxEntry>, block: nat)
    requires f.Listed() && Placed(f, pl) && IsIndex(f, pl, idx)
    requires block < f.Count() && 0 < BlockOf(pl.off, block)
    ensures 0 < Skipped(pl.off, BlockOf(pl.off, block)) <= block
    ensures f.At(Skipped(pl.off, BlockOf(pl.off, block)), Jumped(f, pl, idx, block))
  {
    SkippedAtMost(pl.off, block);
    SlotInside(pl.off, f.Count(), block);
    JumpAt(f, pl, idx, BlockOf(pl.off, block));
  }

  /** The index refines the scan: for a block of the file, the list that jumped and the list that
      scanned as many entries as the jump skipped, at most `block`, go through the same states in
      all further steps. */
  lemma IndexRefinesScan(f: File, pl: Placement, idx: seq<IdxEntry>, block: nat, n: nat)
    requires f.Listed() && Placed(f, pl) && IsIndex(f, pl, idx)
    requires block < f.Count() && 0 < BlockOf(pl.off, block)
    ensures 0 < Skipped(pl.off, BlockOf(pl.off, block)) <= block
    ensures 0 < n && Skipped(pl.off, BlockOf(pl.off, block)) + n <= f.Count() ==>
              Steps(f.read, f.blockSize, Jumped(f, pl, idx, block), n) ==
              Steps(f.read, f.blockSize, Start(f.blockSize, f.ino), Skipped(pl.off, BlockOf(pl.off, block)) + n)
  {
    JumpedAt(f, pl, idx, block);
    var k: nat := Skipped(pl.off, BlockOf(pl.off, block));
    if 0 < n && k + n <= f.Count() {
      f.SameAsScan(k, Jumped(f, pl, idx, block), n);
    }
  }

  /** A jump towards any block up to the block count, whatever an unfilled or missing slot yields:
      it lands at most at `block`, and at the end of the list only with nothing left to step over. */
  lemma JumpLands(f: File, pl: Placement, idx: seq<IdxEntry>, block: nat, e: IdxEntry)
    requires f.Listed() && Placed(f, pl) && IsIndex(f, pl, idx)
    requires block <= f.Count() && 0 < BlockOf(pl.off, block)
    requires BlockOf(pl.off, block) <= |idx| ==> e == idx[BlockOf(pl.off, block) - 1]
    ensures 0 < Skipped(pl.off, BlockOf(pl.off, block)) <= block
    ensures f.Stands(Skipped(pl.off, BlockOf(pl.off, block)),
                     Jump(Start(f.blockSize, f.ino), f.blockSize, pl.off, BlockOf(pl.off, block), pl.tableStart, e))
  {
    var m := BlockOf(pl.off, block);
    SkippedAtMost(pl.off, block);
    if Skipped(pl.off, m) < f.Count() {
      SlotExists(pl.off, f.Count(), m);
      JumpAt(f, pl, idx, m);
    }
  }

  /** The slot for the block count is unfilled exactly when the list ends within the first bytes of
      a metadata block, and then it may lie behind the last allocated entry. */
  lemma EndSlot(off: nat, count: nat)
    requires off < METADATA_SIZE && 0 < count && 0 < BlockOf(off, count)
    ensures Skipped(off, BlockOf(off, count)) >= count <==> (off + ENTRY_SIZE * count) % METADATA_SIZE < ENTRY_SIZE
    ensures BlockOf(off, count) > IndexLength(off, count) <==> (off + ENTRY_SIZE * count) % METADATA_SIZE == 0
  {
    SkippedIsFirst(off, BlockOf(off, count));
  }

  // ---- How the index is filled ----

  /** After k entries have been stepped over, the slots of the metadata blocks up to that of entry
      k - 1 are filled. */
  ghost predicate FilledTo(f: File, pl: Placement, idx: seq<IdxEntry>, k: nat, i: nat)
    requires 0 < f.blockSize && Placed(f, pl)
  {
    && i == (if k == 0 then 0 else BlockOf(pl.off, k - 1)) <= |idx|
    && forall m | 0 < m <= i :: idx[m - 1] == SlotFor(f, pl, m)
  }

  /** Entry k is the first of a new metadata block exactly when its cursor is within the first
      bytes of one, the very first entry aside. */
  lemma NewBlock(off: nat, k: nat)
    requires off < METADATA_SIZE && 0 < k
    ensures (off + ENTRY_SIZE * k) % METADATA_SIZE < ENTRY_SIZE <==>
            BlockOf(off, k) == BlockOf(off, k - 1) + 1 && Skipped(off, BlockOf(off, k)) == k
    ensures (off + ENTRY_SIZE * k) % METADATA_SIZE >= ENTRY_SIZE ==> BlockOf(off, k) == BlockOf(off, k - 1)
  {
    var m := BlockOf(off, k);
    assert m * METADATA_SIZE / ENTRY_SIZE == ENTRIES_PER_MD_BLOCK * m;
  }

  /** When the loop stops, for want of entries or of slots, the index is complete. */
  lemma FilledIsIndex(f: File, pl: Placement, idx: seq<IdxEntry>, k: nat, i: nat)
    requires 0 < f.blockSize && Placed(f, pl) && 0 < f.Count()
    requires |idx| == IndexLength(pl.off, f.Count()) && k <= f.Count() && FilledTo(f, pl, idx, k, i)
    requires k == f.Count() || i == |idx|
    ensures IsIndex(f, pl, idx)
  {
    forall m | 0 < m <= |idx| && Skipped(pl.off, m) < f.Count()
      ensures m <= i
    {
      SkippedIsFirst(pl.off, m);
    }
  }

  /** Filling a slot at the entry that starts a new metadata block, and passing any other entry. */
  lemma FillSlot(f: File, pl: Placement, idx: seq<IdxEntry>, k: nat, i: nat, s: State)
    requires 0 < f.blockSize && Placed(f, pl) && k < f.Count() && f.At(k, s)
    requires |idx| == IndexLength(pl.off, f.Count()) && FilledTo(f, pl, idx, k, i) && i < |idx|
    requires pl.tableStart <= s.cur.block
    ensures s.cur.offset < ENTRY_SIZE && 0 < k ==>
              FilledTo(f, pl, idx[i := IdxEntry(s.block + s.inputSize, s.cur.block - pl.tableStart)], k + 1, i + 1)
    ensures !(s.cur.offset < ENTRY_SIZE && 0 < k) ==> FilledTo(f, pl, idx, k + 1, i)
  {
    CursorOf(f, pl, k);
    if 0 < k {
      NewBlock(pl.off, k);
    }
  }

  /** A slot in whose metadata block an entry starts is a slot of the index. */
  lemma SlotExists(off: nat, count: nat, m: nat)
    requires off < METADATA_SIZE && 0 < m && Skipped(off, m) < count
    ensures m <= IndexLength(off, count)
  {
    SkippedIsFirst(off, m);
  }
}
