/** The image as a pure meaning: what a metadata or data block at a position decodes to, what a
    read through a metadata cursor yields, and how that reads as one flat byte stream. */
module Image {
  import opened Prelude

  const METADATA_SIZE := 8192

  /** A decoded metadata block and the bytes it takes on disk, its 2-byte header included. */
  datatype MdBlock = MdBlock(data: seq<Byte>, diskSize: nat)

  /** What the blocks of an image of `size` bytes decode to: `md` by position, `data` by position
      and header. */
  datatype Image = Image(size: nat, md: nat -> Option<MdBlock>, data: (nat, nat) -> Option<seq<Byte>>)

  /** sqfs_md_cursor: a block position and a byte offset inside the decoded block. */
  datatype Cursor = Cursor(block: nat, offset: nat)

  /** The metadata block at `pos`, which must lie inside the image. */
  function MdAt(im: Image, pos: nat): (r: Option<MdBlock>)
    ensures r.Some? ==> 0 < r.value.diskSize && pos + r.value.diskSize <= im.size
  {
    match im.md(pos)
    case None => None
    case Some(b) => if 0 < b.diskSize && pos + b.diskSize <= im.size then Some(b) else None
  }

  /** The cursor after stopping at `offset` in the block at `pos`: the end of a block is written as
      the start of the next one. */
  function Normalise(pos: nat, offset: nat, b: MdBlock): Cursor {
    if offset == |b.data| then Cursor(pos + b.diskSize, 0) else Cursor(pos, offset)
  }

  /** The meaning of sqfs_md_read, with no cache and no loop: the bytes and the cursor after them. */
  function ReadAt(im: Image, cur: Cursor, n: nat): (r: Result<(seq<Byte>, Cursor)>)
    ensures r.Ok? ==> |r.value.0| == n && r.value.1.block >= cur.block
    decreases im.size - cur.block
  {
    if n == 0 then Ok(([], cur))
    else
      match MdAt(im, cur.block)
      case None => Err(IoError)
      case Some(b) =>
        if cur.offset > |b.data| then Err(OutOfBounds)
        else if n <= |b.data| - cur.offset then
          Ok((b.data[cur.offset..cur.offset + n], Normalise(cur.block, cur.offset + n, b)))
        else
          match ReadAt(im, Cursor(cur.block + b.diskSize, 0), n - (|b.data| - cur.offset))
          case Err(e) => Err(e)
          case Ok(rest) => Ok((b.data[cur.offset..] + rest.0, rest.1))
  }

  /** Both halves of a read, the second from where the first one stopped. */
  function ReadTwice(im: Image, cur: Cursor, a: nat, b: nat): Result<(seq<Byte>, Cursor)> {
    match ReadAt(im, cur, a)
    case Err(e) => Err(e)
    case Ok(first) =>
      match ReadAt(im, first.1, b)
      case Err(e) => Err(e)
      case Ok(second) => Ok((first.0 + second.0, second.1))
  }

  /** Reads at `cursor` yield the bytes `b`. */
  ghost predicate Holds(im: Image, b: seq<Byte>, cursor: nat -> Cursor) {
    forall o: nat, n: nat {:trigger ReadAt(im, cursor(o), n)} | o + n <= |b| ::
      ReadAt(im, cursor(o), n) == Ok((b[o..o + n], cursor(o + n)))
  }

  /** Reading a + b bytes is reading a and then b: any cursor, any image, errors included. */
  lemma {:induction false} ReadSplit(im: Image, cur: Cursor, a: nat, b: nat)
    ensures ReadAt(im, cur, a + b) == ReadTwice(im, cur, a, b)
    decreases im.size - cur.block
  {
    if a == 0 {
      if ReadAt(im, cur, b).Ok? {
        assert [] + ReadAt(im, cur, b).value.0 == ReadAt(im, cur, b).value.0;
      }
    } else if b == 0 {
      if ReadAt(im, cur, a).Ok? {
        assert ReadAt(im, cur, a).value.0 + [] == ReadAt(im, cur, a).value.0;
      }
    } else if MdAt(im, cur.block).Some? {
      var blk := MdAt(im, cur.block).value;
      if cur.offset <= |blk.data| {
        var here := |blk.data| - cur.offset;
        if a > here {
          ReadSplit(im, Cursor(cur.block + blk.diskSize, 0), a - here, b);
          SplitBeyond(im, cur, blk, a, b);
        } else {
          SplitWithin(im, cur, blk, a, b);
        }
      }
    }
  }

  lemma SplitBeyond(im: Image, cur: Cursor, blk: MdBlock, a: nat, b: nat)
    requires MdAt(im, cur.block) == Some(blk) && cur.offset <= |blk.data|
    requires |blk.data| - cur.offset < a
    requires ReadAt(im, Cursor(cur.block + blk.diskSize, 0), (a - (|blk.data| - cur.offset)) + b) ==
             ReadTwice(im, Cursor(cur.block + blk.diskSize, 0), a - (|blk.data| - cur.offset), b)
    ensures ReadAt(im, cur, a + b) == ReadTwice(im, cur, a, b)
  {
    var here := |blk.data| - cur.offset;
    var next := Cursor(cur.block + blk.diskSize, 0);
    assert (a - here) + b == (a + b) - here;
    if ReadTwice(im, next, a - here, b).Ok? {
      var first := ReadAt(im, next, a - here).value;
      var second := ReadAt(im, first.1, b).value;
      assert blk.data[cur.offset..] + (first.0 + second.0) == (blk.data[cur.offset..] + first.0) + second.0;
    }
  }

  lemma SplitWithin(im: Image, cur: Cursor, blk: MdBlock, a: nat, b: nat)
    requires MdAt(im, cur.block) == Some(blk) && cur.offset <= |blk.data|
    requires 0 < a <= |blk.data| - cur.offset && 0 < b
    ensures ReadAt(im, cur, a + b) == ReadTwice(im, cur, a, b)
  {
    var here := |blk.data| - cur.offset;
    var next := Cursor(cur.block + blk.diskSize, 0);
    if a == here {
      assert blk.data[cur.offset..cur.offset + a] == blk.data[cur.offset..];
    } else if a + b <= here {
      assert blk.data[cur.offset..cur.offset + (a + b)] ==
             blk.data[cur.offset..cur.offset + a] + blk.data[cur.offset + a..cur.offset + a + b];
    } else {
      assert (a + b) - here == b - (here - a);
      if ReadAt(im, next, a + b - here).Ok? {
        var rest := ReadAt(im, next, a + b - here).value;
        assert blk.data[cur.offset..] + rest.0 ==
               blk.data[cur.offset..cur.offset + a] + (blk.data[cur.offset + a..] + rest.0);
      }
    }
  }

  // ---- Tables: consecutive metadata blocks read as one flat stream ----

  /** A readable block that holds something, at most METADATA_SIZE bytes. */
  ghost predicate IsTableBlock(im: Image, pos: nat) {
    MdAt(im, pos).Some? && 0 < |MdAt(im, pos).value.data| <= METADATA_SIZE
  }

  ghost predicate IsFullBlock(im: Image, pos: nat) {
    IsTableBlock(im, pos) && |MdAt(im, pos).value.data| == METADATA_SIZE
  }

  /** `ps` lists the positions of metadata blocks; all but the last decode to exactly METADATA_SIZE
      bytes. */
  ghost predicate IsBlocks(im: Image, ps: seq<nat>) {
    && (forall i | 0 <= i < |ps| :: IsTableBlock(im, ps[i]))
    && (forall i | 0 <= i < |ps| - 1 :: IsFullBlock(im, ps[i]))
  }

  ghost predicate Follows(im: Image, pos: nat, next: nat)
    requires IsTableBlock(im, pos)
  {
    next == pos + MdAt(im, pos).value.diskSize
  }

  /** Such blocks, each directly behind the one before. */
  ghost predicate IsTable(im: Image, ps: seq<nat>) {
    && IsBlocks(im, ps)
    && (forall i, j | 0 <= i < |ps| && j == i + 1 < |ps| :: Follows(im, ps[i], ps[j]))
  }

  ghost function BlockData(im: Image, ps: seq<nat>, i: nat): (data: seq<Byte>)
    requires IsBlocks(im, ps) && i < |ps|
    ensures 0 < |data| <= METADATA_SIZE
    ensures i + 1 < |ps| ==> |data| == METADATA_SIZE
  {
    assert i + 1 < |ps| ==> IsFullBlock(im, ps[i]);
    MdAt(im, ps[i]).value.data
  }

  /** Where the block after the table starts. */
  ghost function TableEnd(im: Image, ps: seq<nat>): nat
    requires IsBlocks(im, ps) && ps != []
  {
    ps[|ps| - 1] + MdAt(im, ps[|ps| - 1]).value.diskSize
  }

  /** The bytes of a table: its decoded blocks one after the other. */
  ghost function Flat(im: Image, ps: seq<nat>): (s: seq<Byte>)
    requires IsBlocks(im, ps)
    ensures ps == [] ==> s == []
    ensures ps != [] ==> |s| == METADATA_SIZE * (|ps| - 1) + |BlockData(im, ps, |ps| - 1)|
  {
    if ps == [] then []
    else
      var init := ps[..|ps| - 1];
      assert IsBlocks(im, init);
      assert init != [] ==> BlockData(im, init, |init| - 1) == BlockData(im, ps, |ps| - 2);
      Flat(im, init) + BlockData(im, ps, |ps| - 1)
  }

  /** Where byte `o` of the flat stream lives; the end of the stream is the block after the last. */
  ghost function CursorAt(im: Image, ps: seq<nat>, o: nat): Cursor
    requires IsTable(im, ps) && ps != [] && o <= |Flat(im, ps)|
  {
    if o == |Flat(im, ps)| then Cursor(TableEnd(im, ps), 0)
    else Cursor(ps[o / METADATA_SIZE], o % METADATA_SIZE)
  }

  /** Block i of a table occupies the bytes of its flat stream from METADATA_SIZE * i on. */
  lemma {:induction false} FlatBlock(im: Image, ps: seq<nat>, i: nat)
    requires IsBlocks(im, ps) && i < |ps|
    ensures METADATA_SIZE * i + |BlockData(im, ps, i)| <= |Flat(im, ps)|
    ensures Flat(im, ps)[METADATA_SIZE * i..METADATA_SIZE * i + |BlockData(im, ps, i)|] == BlockData(im, ps, i)
  {
    var init := ps[..|ps| - 1];
    assert IsBlocks(im, init);
    if i < |init| {
      FlatBlock(im, init, i);
      assert BlockData(im, init, i) == BlockData(im, ps, i);
    } else if init != [] {
      assert BlockData(im, init, |init| - 1) == BlockData(im, ps, |ps| - 2);
    }
  }

  /** A slice of the flat stream inside block i is that slice of the block. */
  lemma BlockSlice(im: Image, ps: seq<nat>, i: nat, from: nat, to: nat)
    requires IsBlocks(im, ps) && i < |ps| && from <= to <= |BlockData(im, ps, i)|
    ensures METADATA_SIZE * i + to <= |Flat(im, ps)|
    ensures Flat(im, ps)[METADATA_SIZE * i + from..METADATA_SIZE * i + to] == BlockData(im, ps, i)[from..to]
  {
    FlatBlock(im, ps, i);
    SubSlice(Flat(im, ps), METADATA_SIZE * i, |BlockData(im, ps, i)|, from, to);
  }

  /** A read through the cursor of flat offset `o` yields the next `n` bytes of the flat stream and
      leaves the cursor of flat offset `o + n`. */
  lemma ReadFlat(im: Image, ps: seq<nat>, o: nat, n: nat)
    requires IsTable(im, ps) && ps != [] && o + n <= |Flat(im, ps)|
    ensures ReadAt(im, CursorAt(im, ps, o), n) == Ok((Flat(im, ps)[o..o + n], CursorAt(im, ps, o + n)))
  {
    if n == 0 {
      assert Flat(im, ps)[o..o] == [];
    } else {
      ReadFrom(im, ps, o / METADATA_SIZE, o % METADATA_SIZE, n);
    }
  }

  lemma {:induction false} ReadFrom(im: Image, ps: seq<nat>, i: nat, off: nat, n: nat)
    requires IsTable(im, ps) && i < |ps| && off < |BlockData(im, ps, i)| && 0 < n
    requires METADATA_SIZE * i + off + n <= |Flat(im, ps)|
    ensures ReadAt(im, Cursor(ps[i], off), n) ==
            Ok((Flat(im, ps)[METADATA_SIZE * i + off..METADATA_SIZE * i + off + n],
                CursorAt(im, ps, METADATA_SIZE * i + off + n)))
    decreases n
  {
    var here := |BlockData(im, ps, i)| - off;
    if n <= here {
      BlockSlice(im, ps, i, off, off + n);
      BlockCursor(im, ps, i, off + n);
    } else {
      assert i + 1 < |ps| && Follows(im, ps[i], ps[i + 1]);
      ReadFrom(im, ps, i + 1, 0, n - here);
      ReadAcross(im, ps, i, off, n);
    }
  }

  lemma ReadAcross(im: Image, ps: seq<nat>, i: nat, off: nat, n: nat)
    requires IsTable(im, ps) && i < |ps| && off < |BlockData(im, ps, i)|
    requires n > |BlockData(im, ps, i)| - off
    requires METADATA_SIZE * i + off + n <= |Flat(im, ps)|
    requires ReadAt(im, Cursor(ps[i] + MdAt(im, ps[i]).value.diskSize, 0), n - (|BlockData(im, ps, i)| - off)) ==
             Ok((Flat(im, ps)[METADATA_SIZE * i + |BlockData(im, ps, i)|..METADATA_SIZE * i + off + n],
                 CursorAt(im, ps, METADATA_SIZE * i + off + n)))
    ensures ReadAt(im, Cursor(ps[i], off), n) ==
            Ok((Flat(im, ps)[METADATA_SIZE * i + off..METADATA_SIZE * i + off + n],
                CursorAt(im, ps, METADATA_SIZE * i + off + n)))
  {
    var data, p := BlockData(im, ps, i), METADATA_SIZE * i;
    BlockSlice(im, ps, i, off, |data|);
    assert data[off..] == data[off..|data|];
    Adjacent(Flat(im, ps), p + off, p + |data|, p + off + n);
    ReadOn(im, Cursor(ps[i], off), n, MdAt(im, ps[i]).value, Flat(im, ps)[p + |data|..p + off + n],
           CursorAt(im, ps, p + off + n));
  }

  /** A read that goes on in the next block. */
  lemma ReadOn(im: Image, cur: Cursor, n: nat, b: MdBlock, rest: seq<Byte>, end: Cursor)
    requires MdAt(im, cur.block) == Some(b) && cur.offset <= |b.data| && n > |b.data| - cur.offset
    requires ReadAt(im, Cursor(cur.block + b.diskSize, 0), n - (|b.data| - cur.offset)) == Ok((rest, end))
    ensures ReadAt(im, cur, n) == Ok((b.data[cur.offset..] + rest, end))
  {
  }

  /** Stopping at `offset` in block i of a table leaves the cursor of that flat offset. */
  lemma BlockCursor(im: Image, ps: seq<nat>, i: nat, offset: nat)
    requires IsTable(im, ps) && i < |ps| && 0 < offset <= |BlockData(im, ps, i)|
    ensures METADATA_SIZE * i + offset <= |Flat(im, ps)|
    ensures Normalise(ps[i], offset, MdAt(im, ps[i]).value) == CursorAt(im, ps, METADATA_SIZE * i + offset)
  {
    FlatBlock(im, ps, i);
    if i + 1 < |ps| {
      assert Follows(im, ps[i], ps[i + 1]);
    }
  }

  // ---- Two-level tables of fixed-size entries ----

  /** The meaning of sqfs_table_get on the table whose metadata blocks are at `blocks`. */
  function TableEntry(im: Image, blocks: seq<nat>, each: nat, idx: nat): Result<seq<Byte>> {
    var pos := idx * each;
    if pos / METADATA_SIZE >= |blocks| then Err(OutOfBounds)
    else
      match MdAt(im, blocks[pos / METADATA_SIZE])
      case None => Err(IoError)
      case Some(b) =>
        var off := pos % METADATA_SIZE;
        if off + each > |b.data| then Err(OutOfBounds) else Ok(b.data[off..off + each])
  }

  /** The two-level lookup is indexing into one flat array, for the entry sizes the file system
      uses: ids, export entries, and fragment or xattr entries. No entry straddles two blocks. */
  lemma TableIsFlat(im: Image, blocks: seq<nat>, each: nat, idx: nat)
    requires IsBlocks(im, blocks) && (each == 4 || each == 8 || each == 16)
    requires idx * each + each <= |Flat(im, blocks)|
    ensures TableEntry(im, blocks, each, idx) == Ok(Flat(im, blocks)[idx * each..idx * each + each])
  {
    NoStraddle(each, idx);
    EntryInBlock(im, blocks, each, idx * each);
  }

  lemma EntryInBlock(im: Image, blocks: seq<nat>, each: nat, pos: nat)
    requires IsBlocks(im, blocks) && pos % METADATA_SIZE + each <= METADATA_SIZE && 0 < each
    requires pos + each <= |Flat(im, blocks)|
    ensures var k, off := pos / METADATA_SIZE, pos % METADATA_SIZE;
            && k < |blocks| && MdAt(im, blocks[k]).Some? && off + each <= |MdAt(im, blocks[k]).value.data|
            && MdAt(im, blocks[k]).value.data[off..off + each] == Flat(im, blocks)[pos..pos + each]
  {
    BlockSlice(im, blocks, pos / METADATA_SIZE, pos % METADATA_SIZE, pos % METADATA_SIZE + each);
  }

  lemma NoStraddle(each: nat, idx: nat)
    requires each == 4 || each == 8 || each == 16
    ensures idx * each % METADATA_SIZE + each <= METADATA_SIZE
  {
    if each == 4 {
      assert idx * each == 4 * idx;
    } else if each == 8 {
      assert idx * each == 8 * idx;
    } else {
      assert idx * each == 16 * idx;
    }
  }
}
