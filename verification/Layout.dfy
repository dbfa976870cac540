/** Files as SquashFS lays them out: a block list that runs through the inode table meets everything
    that the reader of files relies on. */
module Layout {
  import opened Prelude
  import opened Image
  import opened Blocklist
  import opened BlockIndex
  import opened Reader

  /** The inode table is at `ps`, behind `tableStart` and within 32 bits of it; the block list of
      `ino` begins at its flat byte `o`. */
  ghost predicate InTable(im: Image, blockSize: nat, tableStart: nat, ps: seq<nat>, ino: Inode, o: nat) {
    && 0 < blockSize
    && IsTable(im, ps) && ps != []
    && (forall i | 0 <= i < |ps| :: tableStart <= ps[i] < tableStart + 0x1_0000_0000 && 0 < ps[i])
    && o + ENTRY_SIZE * BlockCount(blockSize, ino) <= |Flat(im, ps)|
    && ino.next == CursorAt(im, ps, o)
    && o < |Flat(im, ps)|
  }

  /** Entry k of the list, as the bytes of the table spell it. */
  ghost function Entry(im: Image, ps: seq<nat>, o: nat, k: nat): nat {
    if IsTable(im, ps) && o + ENTRY_SIZE * (k + 1) <= |Flat(im, ps)|
    then U32(Flat(im, ps)[o + ENTRY_SIZE * k..o + ENTRY_SIZE * (k + 1)], 0)
    else 0
  }

  /** Where entry k is. */
  ghost function EntryCursor(im: Image, ps: seq<nat>, o: nat, k: nat): Cursor {
    if IsTable(im, ps) && ps != [] && o + ENTRY_SIZE * k <= |Flat(im, ps)|
    then CursorAt(im, ps, o + ENTRY_SIZE * k)
    else Cursor(0, 0)
  }

  /** The file of an inode in the table. */
  ghost function TableFile(im: Image, blockSize: nat, ino: Inode, ps: seq<nat>, o: nat): File {
    File(EntryReader(im), blockSize, ino, (k: nat) => Entry(im, ps, o, k), (k: nat) => EntryCursor(im, ps, o, k))
  }

  /** The position of metadata block m of the list. */
  ghost function MdPosition(ps: seq<nat>, o: nat, m: nat): nat
    requires ps != []
  {
    if o / METADATA_SIZE + m < |ps| then ps[o / METADATA_SIZE + m] else ps[0]
  }

  ghost function TablePlacement(tableStart: nat, ps: seq<nat>, o: nat): Placement
    requires ps != []
  {
    Placement(o % METADATA_SIZE, (m: nat) => MdPosition(ps, o, m), tableStart)
  }

  /** Reading one entry moves to the next. */
  lemma EntryReads(im: Image, ps: seq<nat>, o: nat, k: nat)
    requires IsTable(im, ps) && ps != [] && o + ENTRY_SIZE * (k + 1) <= |Flat(im, ps)|
    ensures EntryReader(im)(EntryCursor(im, ps, o, k)) == Ok((Entry(im, ps, o, k), EntryCursor(im, ps, o, k + 1)))
  {
    ReadFlat(im, ps, o + ENTRY_SIZE * k, ENTRY_SIZE);
    assert o + ENTRY_SIZE * k + ENTRY_SIZE == o + ENTRY_SIZE * (k + 1);
  }

  /** The list of an inode in the table can be read from its cursor on, and never from position 0. */
  lemma TableFileReads(im: Image, blockSize: nat, tableStart: nat, ps: seq<nat>, ino: Inode, o: nat)
    requires InTable(im, blockSize, tableStart, ps, ino, o)
    ensures IsFileOf(TableFile(im, blockSize, ino, ps, o), im, blockSize)
  {
    var f := TableFile(im, blockSize, ino, ps, o);
    forall k, next | 0 <= k < f.Count() && next == k + 1
      ensures f.read(f.cursor(k)) == Ok((f.header(k), f.cursor(next)))
    {
      EntryReads(im, ps, o, k);
    }
    forall k | 0 <= k < f.Count()
      ensures 0 < f.cursor(k).block
    {
      assert o + ENTRY_SIZE * k < |Flat(im, ps)|;
    }
  }

  /** Its entries lie as the index expects, at any offset, aligned to entries or not. */
  lemma TableFilePlaced(im: Image, blockSize: nat, tableStart: nat, ps: seq<nat>, ino: Inode, o: nat)
    requires InTable(im, blockSize, tableStart, ps, ino, o)
    ensures Placed(TableFile(im, blockSize, ino, ps, o), TablePlacement(tableStart, ps, o))
  {
    var f, pl := TableFile(im, blockSize, ino, ps, o), TablePlacement(tableStart, ps, o);
    forall k, m: nat | 0 <= k < f.Count() && METADATA_SIZE * m <= pl.off + ENTRY_SIZE * k < METADATA_SIZE * (m + 1)
      ensures f.cursor(k) == Cursor(pl.md(m), pl.off + ENTRY_SIZE * k - METADATA_SIZE * m)
    {
      SameBlock(o, k, m);
    }
  }

  lemma SameBlock(o: nat, k: nat, m: nat)
    requires METADATA_SIZE * m <= o % METADATA_SIZE + ENTRY_SIZE * k < METADATA_SIZE * (m + 1)
    ensures (o + ENTRY_SIZE * k) / METADATA_SIZE == o / METADATA_SIZE + m
    ensures (o + ENTRY_SIZE * k) % METADATA_SIZE == o % METADATA_SIZE + ENTRY_SIZE * k - METADATA_SIZE * m
  {
  }
}
