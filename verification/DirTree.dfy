/** Directories of an image as a tree: those in the directory table are well formed, and an image with such a tree. */
module DirTree {
  import opened Prelude
  import opened Image
  import opened Dir
  import opened DirListing
  import opened DirBytes
  import opened DirLookup
  import opened PathLookup

  /** Where a directory's bytes are in the table whose blocks are at `ps`. */
  ghost predicate InTable(im: Image, ps: seq<nat>, table: nat, ino: DirInode, base: nat) {
    && IsTable(im, ps) && ino.isDir && ino.offset < METADATA_SIZE
    && base + Total(ino) <= |Flat(im, ps)| && base < |Flat(im, ps)|
    && base % METADATA_SIZE == ino.offset && ps[base / METADATA_SIZE] == ino.startBlock + table
  }

  ghost function BytesOf(im: Image, ps: seq<nat>, ino: DirInode, base: nat): seq<Byte>
    requires IsTable(im, ps) && base + Total(ino) <= |Flat(im, ps)|
  {
    Flat(im, ps)[base..base + Total(ino)]
  }

  ghost function StreamIn(im: Image, ps: seq<nat>, ino: DirInode, base: nat): Stream
    requires IsTable(im, ps) && ps != [] && base + Total(ino) <= |Flat(im, ps)|
  {
    StreamOf(BytesOf(im, ps, ino, base), CursorsFrom(im, ps, base))
  }

  lemma StreamStarts(im: Image, ps: seq<nat>, table: nat, ino: DirInode, base: nat)
    requires InTable(im, ps, table, ino, base) && ps != []
    ensures StreamIn(im, ps, ino, base).cursor(0) == Cursor(ino.startBlock + table, ino.offset)
  {
    HeaderCursor(im, ps, base, 0);
  }

  lemma StreamReads(im: Image, ps: seq<nat>, ino: DirInode, base: nat)
    requires IsTable(im, ps) && ps != [] && base + Total(ino) <= |Flat(im, ps)|
    ensures Steps(StreamIn(im, ps, ino, base)) && Reads(On(im), StreamIn(im, ps, ino, base))
  {
    TableHolds(im, ps, base, Total(ino));
    BytesList(im, BytesOf(im, ps, ino, base), CursorsFrom(im, ps, base));
  }

  // ---- The index of a directory ----

  /** An index entry names the run behind the first k entries: its offset in the listing, the metadata block that it
      begins in, and the name of its first entry. */
  ghost predicate NamesRun(ps: seq<nat>, table: nat, base: nat, d: Stream, es: seq<Dirent>, item: IndexItem,
                           name: seq<Byte>, k: nat) {
    && k < |es| && es[k].name == name
    && After(d, START, k).header.count == 0 && After(d, START, k).offset == item.index
    && (base + item.index) / METADATA_SIZE < |ps| && ps[(base + item.index) / METADATA_SIZE] == item.startBlock + table
  }

  ghost predicate NamesSome(ps: seq<nat>, table: nat, base: nat, d: Stream, es: seq<Dirent>, item: IndexItem,
                            name: seq<Byte>) {
    exists k: nat :: NamesRun(ps, table, base, d, es, item, name, k)
  }

  /** The bytes `ib` spell, from `at` on, `count` index entries. */
  ghost predicate IndexSpells(ps: seq<nat>, table: nat, base: nat, d: Stream, es: seq<Dirent>, ib: seq<Byte>, at: nat,
                              count: nat)
    decreases count
  {
    count == 0 ||
    (at + INDEX_SIZE <= |ib| &&
     var item := ItemOf(ib[at..at + INDEX_SIZE]);
     var next := at + INDEX_SIZE + item.nameSize;
     && next <= |ib| && NamesSome(ps, table, base, d, es, item, ib[at + INDEX_SIZE..next])
     && IndexSpells(ps, table, base, d, es, ib, next, count - 1))
  }

  lemma RunInside(d: Stream, es: seq<Dirent>, k: nat)
    requires Steps(d) && Listing(d, START) == Some(es) && k < |es|
    ensures After(d, START, k).offset < d.size
  {
    ListingAfter(d, START, k);
    assert Moves(d.size, After(d, START, k), d.step(After(d, START, k)));
  }

  /** The cursors of a directory's bytes, by the blocks they are in. */
  ghost predicate CursorsIn(ps: seq<nat>, base: nat, d: Stream) {
    forall o: nat {:trigger d.cursor(o)} | o < d.size && (base + o) / METADATA_SIZE < |ps| ::
      d.cursor(o) == Cursor(ps[(base + o) / METADATA_SIZE], (base % METADATA_SIZE + o) % METADATA_SIZE)
  }

  lemma StreamCursors(im: Image, ps: seq<nat>, ino: DirInode, base: nat)
    requires IsTable(im, ps) && ps != [] && base + Total(ino) <= |Flat(im, ps)|
    ensures CursorsIn(ps, base, StreamIn(im, ps, ino, base))
  {
    forall o: nat | o < Total(ino)
      ensures CursorsFrom(im, ps, base)(o) ==
              Cursor(ps[(base + o) / METADATA_SIZE], (base % METADATA_SIZE + o) % METADATA_SIZE)
    {
      HeaderCursor(im, ps, base, o);
    }
  }

  lemma RunPoints(ps: seq<nat>, table: nat, ino: DirInode, base: nat, d: Stream, es: seq<Dirent>, item: IndexItem,
                  name: seq<Byte>, k: nat)
    requires CursorsIn(ps, base, d) && base % METADATA_SIZE == ino.offset && Steps(d) && Listing(d, START) == Some(es)
    requires NamesRun(ps, table, base, d, es, item, name, k)
    ensures PointsAt(table, ino, d, es, item, name, k)
  {
    RunInside(d, es, k);
  }

  /** An index is read from its bytes. */
  ghost predicate IndexRead(src: Source, ib: seq<Byte>, cursor: nat -> Cursor) {
    && (forall at: nat {:trigger src.item(cursor(at))} | at + INDEX_SIZE <= |ib| ::
          src.item(cursor(at)) == Ok((ItemOf(ib[at..at + INDEX_SIZE]), cursor(at + INDEX_SIZE))))
    && (forall at: nat, n: nat {:trigger src.name(cursor(at), n)} | at + n <= |ib| ::
          src.name(cursor(at), n) == Ok((ib[at..at + n], cursor(at + n))))
  }

  lemma IndexReads(im: Image, ib: seq<Byte>, cursor: nat -> Cursor)
    requires Holds(im, ib, cursor)
    ensures IndexRead(On(im), ib, cursor)
  {
    forall at: nat | at + INDEX_SIZE <= |ib|
      ensures On(im).item(cursor(at)) == Ok((ItemOf(ib[at..at + INDEX_SIZE]), cursor(at + INDEX_SIZE)))
    {
      assert ReadAt(im, cursor(at), INDEX_SIZE) == Ok((ib[at..at + INDEX_SIZE], cursor(at + INDEX_SIZE)));
    }
    forall at: nat, n: nat | at + n <= |ib|
      ensures On(im).name(cursor(at), n) == Ok((ib[at..at + n], cursor(at + n)))
    {
      assert ReadAt(im, cursor(at), n) == Ok((ib[at..at + n], cursor(at + n)));
    }
  }

  lemma ItemPoints(ps: seq<nat>, table: nat, ino: DirInode, base: nat, d: Stream, es: seq<Dirent>, item: IndexItem,
                   name: seq<Byte>)
    returns (k: nat)
    requires CursorsIn(ps, base, d) && base % METADATA_SIZE == ino.offset && Steps(d) && Listing(d, START) == Some(es)
    requires NamesSome(ps, table, base, d, es, item, name)
    ensures PointsAt(table, ino, d, es, item, name, k)
  {
    k :| NamesRun(ps, table, base, d, es, item, name, k);
    RunPoints(ps, table, ino, base, d, es, item, name, k);
  }

  lemma ItemFits(src: Source, table: nat, ino: DirInode, d: Stream, es: seq<Dirent>, ib: seq<Byte>,
                 cursor: nat -> Cursor, at: nat, mid: nat, next: nat, count: nat, item: IndexItem, name: seq<Byte>,
                 k: nat)
    requires IndexRead(src, ib, cursor) && mid == at + INDEX_SIZE && next == mid + item.nameSize && next <= |ib|
    requires 0 < count && item == ItemOf(ib[at..mid]) && name == ib[mid..next]
    requires PointsAt(table, ino, d, es, item, name, k) && IndexFits(src, table, ino, d, es, cursor(next), count - 1)
    ensures IndexFits(src, table, ino, d, es, cursor(at), count)
  {
    assert src.item(cursor(at)) == Ok((item, cursor(mid)));
    assert src.name(cursor(mid), item.nameSize) == Ok((name, cursor(next)));
  }

  lemma {:induction false} IndexSpellsFits(src: Source, ps: seq<nat>, table: nat, ino: DirInode, base: nat, d: Stream,
                                           es: seq<Dirent>, ib: seq<Byte>, cursor: nat -> Cursor, at: nat, count: nat)
    requires CursorsIn(ps, base, d) && base % METADATA_SIZE == ino.offset && Steps(d) && Listing(d, START) == Some(es)
    requires at <= |ib| && IndexRead(src, ib, cursor) && IndexSpells(ps, table, base, d, es, ib, at, count)
    ensures IndexFits(src, table, ino, d, es, cursor(at), count)
    decreases count
  {
    if count > 0 {
      var mid: nat := at + INDEX_SIZE;
      var item := ItemOf(ib[at..mid]);
      var next: nat := mid + item.nameSize;
      var name := ib[mid..next];
      var k := ItemPoints(ps, table, ino, base, d, es, item, name);
      IndexSpellsFits(src, ps, table, ino, base, d, es, ib, cursor, next, count - 1);
      ItemFits(src, table, ino, d, es, ib, cursor, at, mid, next, count, item, name, k);
    }
  }

  /** The index of a directory: the bytes that are read from the end of its inode on. */
  ghost predicate HasIndex(im: Image, ps: seq<nat>, table: nat, ino: DirInode, base: nat, d: Stream, es: seq<Dirent>,
                           ib: seq<Byte>, cursor: nat -> Cursor) {
    Holds(im, ib, cursor) && cursor(0) == ino.next && IndexSpells(ps, table, base, d, es, ib, 0, ino.idxCount)
  }

  /** A directory in the directory table is well formed if its bytes spell entries, and those of its index, where it
      has one, spell the beginnings of runs. */
  lemma TableDirectory(im: Image, ps: seq<nat>, table: nat, ino: DirInode, base: nat, es: seq<Dirent>, ib: seq<Byte>,
                       cursor: nat -> Cursor)
    requires InTable(im, ps, table, ino, base) && ps != []
    requires Steps(StreamIn(im, ps, ino, base)) && Listing(StreamIn(im, ps, ino, base), START) == Some(es)
    requires ino.idxCount == 0 || HasIndex(im, ps, table, ino, base, StreamIn(im, ps, ino, base), es, ib, cursor)
    ensures IsDirectory(On(im), table, ino, StreamIn(im, ps, ino, base), es)
  {
    StreamStarts(im, ps, table, ino, base);
    StreamReads(im, ps, ino, base);
    OnImage(im);
    if ino.idxCount > 0 {
      StreamCursors(im, ps, ino, base);
      IndexReads(im, ib, cursor);
      IndexSpellsFits(On(im), ps, table, ino, base, StreamIn(im, ps, ino, base), es, ib, cursor, 0, ino.idxCount);
    }
  }

  // ---- An image with a tree: a root that lists one directory, which is empty ----

  const TABLE := 96

  /** A header, for one entry; the entry, of type 1 and at inode 1; and its name. */
  const ROOT_BYTES: seq<Byte> := [0, 0, 0, 0, 0, 0, 0, 0, 0, 0, 0, 0] + [1, 0, 0, 0, 1, 0, 0, 0] + [97]

  function ExampleImage(): Image {
    Image(200, (p: nat) => if p == TABLE then Some(MdBlock(ROOT_BYTES, 23)) else None, (p: nat, h: nat) => None)
  }

  const ROOT := DirInode(true, 0, 0, 24, 0, Cursor(1, 0))
  const CHILD := DirInode(true, 0, 0, 3, 0, Cursor(1, 0))
  const ENTRY := Dirent(1, 1, 0, [97], 0, 21)

  function InodeAt(id: nat): Result<DirInode> {
    if id == 1 then Ok(CHILD) else Err(Invalid)
  }

  lemma ExampleFlat()
    ensures IsTable(ExampleImage(), [TABLE]) && Flat(ExampleImage(), [TABLE]) == ROOT_BYTES && |ROOT_BYTES| == 21
  {
    var im, ps := ExampleImage(), [TABLE];
    assert MdAt(im, TABLE) == Some(MdBlock(ROOT_BYTES, 23));
    assert ps[..0] == [];
    assert Flat(im, ps) == Flat(im, ps[..0]) + BlockData(im, ps, 0);
  }

  /** The bytes of the root spell its one entry. */
  lemma RootStep()
    ensures StepIn(ROOT_BYTES, START) == Yields(ENTRY, Pos(21, Header(0, 0, 0)))
    ensures StepIn(ROOT_BYTES, Pos(21, Header(0, 0, 0))) == Done
  {
    var h, raw := ROOT_BYTES[0..12], ROOT_BYTES[12..20];
    assert h == [0, 0, 0, 0, 0, 0, 0, 0, 0, 0, 0, 0] && HeaderOf(h) == Header(1, 0, 0);
    assert raw == [1, 0, 0, 0, 1, 0, 0, 0] && NameSize(raw) == 1 && ROOT_BYTES[20..21] == [97];
    assert EntryIn(ROOT_BYTES, 0, Pos(12, Header(1, 0, 0))) == Yields(ENTRY, Pos(21, Header(0, 0, 0)));
  }

  lemma RootListing(d: Stream)
    requires Steps(d) && d.step(START) == StepIn(ROOT_BYTES, START)
    requires d.step(Pos(21, Header(0, 0, 0))) == StepIn(ROOT_BYTES, Pos(21, Header(0, 0, 0)))
    ensures Listing(d, START) == Some([ENTRY])
  {
    RootStep();
    assert Listing(d, Pos(21, Header(0, 0, 0))) == Some([]);
    assert [ENTRY] + [] == [ENTRY];
  }

  lemma ExampleBytes()
    ensures IsTable(ExampleImage(), [TABLE]) && |Flat(ExampleImage(), [TABLE])| == 21
    ensures BytesOf(ExampleImage(), [TABLE], ROOT, 0) == ROOT_BYTES && BytesOf(ExampleImage(), [TABLE], CHILD, 0) == []
  {
    ExampleFlat();
    assert ROOT_BYTES[0..21] == ROOT_BYTES;
  }

  lemma ExampleListings()
    ensures IsTable(ExampleImage(), [TABLE]) && |Flat(ExampleImage(), [TABLE])| == 21
    ensures var d := StreamIn(ExampleImage(), [TABLE], ROOT, 0); Steps(d) && Listing(d, START) == Some([ENTRY])
    ensures var d := StreamIn(ExampleImage(), [TABLE], CHILD, 0); Steps(d) && Listing(d, START) == Some([])
  {
    ExampleBytes();
    StreamReads(ExampleImage(), [TABLE], ROOT, 0);
    StreamReads(ExampleImage(), [TABLE], CHILD, 0);
    RootListing(StreamIn(ExampleImage(), [TABLE], ROOT, 0));
    assert StreamIn(ExampleImage(), [TABLE], CHILD, 0).step(START) == StepIn([], START);
  }

  lemma ExampleNodes()
    ensures IsTable(ExampleImage(), [TABLE]) && |Flat(ExampleImage(), [TABLE])| == 21
    ensures IsDirectory(On(ExampleImage()), TABLE, ROOT, StreamIn(ExampleImage(), [TABLE], ROOT, 0), [ENTRY])
    ensures IsDirectory(On(ExampleImage()), TABLE, CHILD, StreamIn(ExampleImage(), [TABLE], CHILD, 0), [])
  {
    ExampleListings();
    TableDirectory(ExampleImage(), [TABLE], TABLE, ROOT, 0, [ENTRY], [], (o: nat) => Cursor(0, 0));
    TableDirectory(ExampleImage(), [TABLE], TABLE, CHILD, 0, [], [], (o: nat) => Cursor(0, 0));
  }

  /** A directory that lists an empty one, and the empty one. */
  function Pair(root: DirInode, child: DirInode, d: Stream, c: Stream, e: Dirent): Tree {
    Tree({root, child}, (ino: DirInode) => if ino == root then d else c,
         (ino: DirInode) => if ino == root then [e] else [])
  }

  lemma PairIsTree(src: Source, table: nat, inodeAt: nat -> Result<DirInode>, root: DirInode, child: DirInode,
                   d: Stream, c: Stream, e: Dirent)
    requires root != child && inodeAt(e.inode) == Ok(child) && NoNul(e.name)
    requires IsDirectory(src, table, root, d, [e]) && IsDirectory(src, table, child, c, [])
    ensures IsTree(src, table, inodeAt, Pair(root, child, d, c, e))
  {
    assert IsNode(src, table, inodeAt, Pair(root, child, d, c, e), root);
    assert IsNode(src, table, inodeAt, Pair(root, child, d, c, e), child);
  }

  lemma ResolveOne(lists: DirInode -> seq<Dirent>, inodeAt: nat -> Result<DirInode>, root: DirInode, e: Dirent)
    requires root.isDir && lists(root) == [e] && inodeAt(e.inode).Ok?
    ensures Resolve(lists, inodeAt, Target(root, None), [e.name]) ==
            Ok(Some(Target(inodeAt(e.inode).value, Some(e.inode))))
  {
    assert [e.name][1..] == [];
  }

  lemma PairResolves(src: Source, table: nat, inodeAt: nat -> Result<DirInode>, root: DirInode, child: DirInode,
                     d: Stream, c: Stream, e: Dirent)
    requires root != child && inodeAt(e.inode) == Ok(child) && NoNul(e.name)
    requires IsDirectory(src, table, root, d, [e]) && IsDirectory(src, table, child, c, [])
    requires 0 < table && 0 < root.next.block && 0 < child.next.block
    ensures exists tree :: IsPlacedTree(src, table, inodeAt, tree) && Within(tree, root) &&
                           Resolve(tree.lists, inodeAt, Target(root, None), [e.name]) ==
                             Ok(Some(Target(child, Some(e.inode))))
  {
    var tree := Pair(root, child, d, c, e);
    PairIsTree(src, table, inodeAt, root, child, d, c, e);
    ResolveOne(tree.lists, inodeAt, root, e);
    assert IsPlacedTree(src, table, inodeAt, tree) && Within(tree, root);
  }

  lemma ExampleResolves(src: Source, d: Stream, c: Stream)
    requires IsDirectory(src, TABLE, ROOT, d, [ENTRY]) && IsDirectory(src, TABLE, CHILD, c, [])
    ensures exists tree :: IsPlacedTree(src, TABLE, InodeAt, tree) && Within(tree, ROOT) &&
                           Resolve(tree.lists, InodeAt, Target(ROOT, None), [[97]]) == Ok(Some(Target(CHILD, Some(1))))
  {
    PairResolves(src, TABLE, InodeAt, ROOT, CHILD, d, c, ENTRY);
  }

  /** So there are trees: the path "a" resolves to the directory that the root lists. */
  lemma TreesExist()
    ensures exists tree :: IsPlacedTree(On(ExampleImage()), TABLE, InodeAt, tree) && Within(tree, ROOT) &&
                           Resolve(tree.lists, InodeAt, Target(ROOT, None), [[97]]) == Ok(Some(Target(CHILD, Some(1))))
  {
    ExampleNodes();
    ExampleResolves(On(ExampleImage()), StreamIn(ExampleImage(), [TABLE], ROOT, 0),
                    StreamIn(ExampleImage(), [TABLE], CHILD, 0));
  }
}
