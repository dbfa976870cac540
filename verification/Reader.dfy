/** Reading regular files: block lists, the index cache, fragments and sqfs_read_range. */
module Reader {
  import opened Prelude
  import opened Image
  import opened SlotCache
  import opened Blocklist
  import opened BlockIndex
  import opened FileContent
  import opened Fs
  import opened Blocks
  import Disk

  /** The entries of a block list are words of metadata. */
  function EntryReader(im: Image): Blocklist.Reader {
    (cur: Cursor) => WordAt(im, cur)
  }

  /** The rest of a step, given what was read under the cursor. */
  function Advance(s: State, blockSize: nat, got: Result<(nat, Cursor)>): Result<State> {
    match got
    case Err(e) => Err(e)
    case Ok((header, cur)) =>
      Ok(s.(cur := cur, header := header, block := s.block + s.inputSize,
            inputSize := Disk.DataHeader(header).1, pos := s.pos + (if s.started then blockSize else 0),
            started := true))
  }

  lemma StepAdvances(im: Image, blockSize: nat, s: State)
    requires 0 < s.remain
    ensures Step(EntryReader(im), blockSize, s) == Advance(s.(remain := s.remain - 1), blockSize, WordAt(im, s.cur))
  {
  }

  /** sqfs_blocklist: the metadata it reads from and the fields it advances. */
  class BlockList {
    const md: BlockCache
    const blockSize: nat
    var s: State

    /** sqfs_blocklist_init. */
    constructor (md: BlockCache, blockSize: nat, ino: Inode)
      requires 0 < blockSize
      ensures this.md == md && this.blockSize == blockSize && s == Start(blockSize, ino)
    {
      this.md := md;
      this.blockSize := blockSize;
      var count := CountBlocks(blockSize, ino);
      s := State(count, ino.next, false, 0, ino.startBlock, 0, 0);
    }

    /** sqfs_blocklist_next. */
    method Next(ghost im: Image) returns (r: Result<()>)
      requires md.Valid() && Serves(md, im) && this !in md.Repr()
      modifies this, md.Repr()
      ensures md.Valid() && md.held == old(md.held)
      ensures r.Ok? ==> Step(EntryReader(im), blockSize, old(s)) == Ok(s)
      ensures r.Err? ==> r.error == AssertFailed || Step(EntryReader(im), blockSize, old(s)) == Err(r.error)
      ensures !old(md.failed) && 0 < old(s.cur.block) ==> r != Err(AssertFailed)
      ensures r.Ok? ==> md.failed == old(md.failed)
    {
      if s.remain == 0 {
        return Err(Invalid);
      }
      StepAdvances(im, blockSize, s);
      s := s.(remain := s.remain - 1);
      var got := ReadWord(md, im, s.cur);
      var next := Advance(s, blockSize, got);
      if next.Err? {
        return Err(next.error);
      }
      s := next.value;
      return Ok(());
    }
  }

  /** `f` is a file of the image, and all of its list is in readable metadata. */
  ghost predicate IsFileOf(f: File, im: Image, blockSize: nat) {
    && f.blockSize == blockSize
    && f.read == EntryReader(im)
    && f.Listed()
    && forall k | 0 <= k < f.Count() :: 0 < f.cursor(k).block
  }

  /** sqfs_blocklist_next on the list of a file: a step over block k, which only an earlier failed
      read can spoil. */
  method StepOver(bl: BlockList, ghost im: Image, ghost f: File, ghost k: nat) returns (r: Result<()>)
    requires bl.md.Valid() && Serves(bl.md, im) && bl !in bl.md.Repr()
    requires IsFileOf(f, im, bl.blockSize) && f.At(k, bl.s) && k < f.Count()
    modifies bl, bl.md.Repr()
    ensures bl.md.Valid() && bl.md.held == old(bl.md.held)
    ensures r.Ok? ==> bl.s == f.After(k) && f.At(k + 1, bl.s)
    ensures r.Err? ==> r == Err(AssertFailed) && old(bl.md.failed)
    ensures r.Ok? ==> bl.md.failed == old(bl.md.failed)
  {
    f.StepAt(k, bl.s);
    r := bl.Next(im);
  }
}
