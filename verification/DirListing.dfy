/** What a well-formed directory lists, and that the shortcuts of src/dir.c never change it. */
module DirListing {
  import opened Prelude
  import opened Image
  import opened Dir

  // ---- Listings ----

  /** Where a listing is being read: the offset, and the run it is in. */
  datatype Pos = Pos(offset: nat, header: Header)

  const START := Pos(0, Header(0, 0, 0))

  datatype Step = Done | Bad | Yields(entry: Dirent, next: Pos)

  /** A listing of `size` bytes: the cursor of each byte, and the entry at each position. */
  datatype Stream = Stream(size: nat, cursor: nat -> Cursor, step: Pos -> Step)

  ghost predicate Moves(size: nat, p: Pos, r: Step) {
    r.Yields? ==> p.offset < r.next.offset <= size && r.entry.offset == p.offset && r.entry.nextOffset == r.next.offset
  }

  /** Each entry is further into the listing than the one before, and between two runs only the
      offset matters. */
  ghost predicate Steps(d: Stream) {
    && (forall p: Pos :: Moves(d.size, p, d.step(p)))
    && (forall p: Pos :: p.header.count == 0 ==> d.step(p) == d.step(Pos(p.offset, Header(0, 0, 0))))
  }

  /** All entries from a position on; nothing if the bytes are malformed. */
  ghost function Listing(d: Stream, p: Pos): Option<seq<Dirent>>
    requires Steps(d)
    decreases d.size - p.offset
  {
    assert Moves(d.size, p, d.step(p));
    match d.step(p)
    case Done => Some([])
    case Bad => None
    case Yields(e, next) =>
      match Listing(d, next)
      case None => None
      case Some(rest) => Some([e] + rest)
  }

  /** The position after k entries. */
  function After(d: Stream, p: Pos, k: nat): Pos
    decreases k
  {
    if k == 0 then p
    else
      match d.step(p)
      case Yields(_, next) => After(d, next, k - 1)
      case _ => p
  }

  /** Behind k entries the other entries are left. */
  lemma {:induction false} ListingAfter(d: Stream, p: Pos, k: nat)
    requires Steps(d) && Listing(d, p).Some? && k <= |Listing(d, p).value|
    ensures Listing(d, After(d, p, k)) == Some(Listing(d, p).value[k..])
    decreases k
  {
    var es := Listing(d, p).value;
    if k == 0 {
      assert es[0..] == es;
    } else {
      ListingAfter(d, d.step(p).next, k - 1);
      assert es[k..] == es[1..][k - 1..];
    }
  }

  lemma {:induction false} AfterAdd(d: Stream, p: Pos, j: nat, k: nat)
    requires Steps(d) && Listing(d, p).Some? && j + k <= |Listing(d, p).value|
    ensures After(d, p, j + k) == After(d, After(d, p, j), k)
    decreases j
  {
    if j > 0 {
      AfterAdd(d, d.step(p).next, j - 1, k);
    }
  }

  lemma {:induction false} AfterMoves(d: Stream, p: Pos, k: nat)
    requires Steps(d) && Listing(d, p).Some? && k <= |Listing(d, p).value|
    ensures p.offset <= After(d, p, k).offset
    ensures 0 < k ==> p.offset < After(d, p, k).offset
    ensures 0 < k ==> After(d, p, k).offset == Listing(d, p).value[k - 1].nextOffset
    decreases k
  {
    assert Moves(d.size, p, d.step(p));
    if k > 0 {
      AfterMoves(d, d.step(p).next, k - 1);
    }
  }

  /** Between two runs only the offset of a position matters. */
  lemma SameHeader(d: Stream, p: Pos, k: nat)
    requires Steps(d) && p.header.count == 0
    ensures Listing(d, Pos(p.offset, Header(0, 0, 0))) == Listing(d, p)
    ensures 0 < k && Listing(d, p).Some? && k <= |Listing(d, p).value| ==>
              After(d, Pos(p.offset, Header(0, 0, 0)), k) == After(d, p, k)
  {
    assert d.step(p) == d.step(Pos(p.offset, Header(0, 0, 0)));
  }

  /** The state of a directory at a position of its listing. */
  function Stand(d: Stream, p: Pos): State {
    State(d.cursor(p.offset), p.offset, d.size, p.header)
  }

  function Told(d: Stream, p: Pos): Result<(Option<Dirent>, State)> {
    match d.step(p)
    case Yields(e, next) => Ok((Some(e), Stand(d, next)))
    case _ => Ok((None, Stand(d, p)))
  }

  /** Reading the image with sqfs_dir_next yields the entries of the listing. */
  ghost predicate Reads(src: Source, d: Stream) {
    forall p: Pos {:trigger d.step(p)} :: !d.step(p).Bad? ==> src.next(Stand(d, p)) == Told(d, p)
  }

  /** Everything sqfs_dir_next still yields. */
  ghost function ListAt(src: Source, s: State): Result<seq<Dirent>>
    requires Ends(src)
    decreases Left(s), s.header.count
  {
    match src.next(s)
    case Err(e) => Err(e)
    case Ok((None, _)) => Ok([])
    case Ok((Some(e), t)) =>
      match ListAt(src, t)
      case Err(x) => Err(x)
      case Ok(rest) => Ok([e] + rest)
  }

  lemma {:induction false} ListIsListing(src: Source, d: Stream, p: Pos)
    requires Ends(src) && Steps(d) && Reads(src, d) && Listing(d, p).Some?
    ensures ListAt(src, Stand(d, p)) == Ok(Listing(d, p).value)
    decreases d.size - p.offset
  {
    if d.step(p).Yields? {
      ListIsListing(src, d, d.step(p).next);
    }
  }

  // ---- Well-formed directories ----

  /** An index entry names the header behind the first k entries, by its listing offset and the
      metadata block it is in, and the first entry of that run. */
  ghost predicate PointsAt(table: nat, ino: DirInode, d: Stream, es: seq<Dirent>, item: IndexItem, name: seq<Byte>,
                           k: nat) {
    && k < |es| && es[k].name == name
    && After(d, START, k).header.count == 0
    && After(d, START, k).offset == item.index
    && d.cursor(item.index) == Cursor(item.startBlock + table, (ino.offset + item.index) % METADATA_SIZE)
  }

  /** The `count` index entries under `cur` can be read and name headers. */
  ghost predicate IndexFits(src: Source, table: nat, ino: DirInode, d: Stream, es: seq<Dirent>, cur: Cursor, count: nat)
    decreases count
  {
    count == 0 ||
    match src.item(cur)
    case Err(_) => false
    case Ok((item, mid)) =>
      match src.name(mid, item.nameSize)
      case Err(_) => false
      case Ok((name, next)) =>
        && (exists k: nat :: PointsAt(table, ino, d, es, item, name, k))
        && IndexFits(src, table, ino, d, es, next, count - 1)
  }

  /** `ino` is a directory whose listing is `d`, with the entries `es`. */
  ghost predicate IsDirectory(src: Source, table: nat, ino: DirInode, d: Stream, es: seq<Dirent>) {
    && ino.isDir && ino.offset < METADATA_SIZE
    && Ends(src) && Steps(d) && Reads(src, d) && d.size == Total(ino)
    && d.cursor(0) == Cursor(ino.startBlock + table, ino.offset)
    && Listing(d, START) == Some(es)
    && IndexFits(src, table, ino, d, es, ino.next, ino.idxCount)
  }

  // ---- The index ----

  /** A state in sqfs_dir_ff_header, whose cursor is still to be completed: at the header behind k
      entries. */
  ghost predicate AtHeader(ino: DirInode, d: Stream, es: seq<Dirent>, k: nat, s: State) {
    && k <= |es|
    && After(d, START, k).header.count == 0
    && s.offset == After(d, START, k).offset
    && s.total == d.size && s.header == Header(0, 0, 0) && s.cur.offset == ino.offset
    && d.cursor(s.offset) == Cursor(s.cur.block, (s.cur.offset + s.offset) % METADATA_SIZE)
  }

  /** The target is not before the header behind k entries. */
  ghost predicate Reaches(d: Stream, es: seq<Dirent>, target: Target, k: nat) {
    k == 0 ||
    match target
    case ToOffset(o) => After(d, START, k).offset < o
    case ToName(name) => k < |es| && !Beyond(es[k].name, name)
  }

  lemma {:induction false} ForwardLands(src: Source, table: nat, ino: DirInode, d: Stream, es: seq<Dirent>,
                                        target: Target, cur: Cursor, count: nat, s: State, k: nat) returns (j: nat)
    requires IndexFits(src, table, ino, d, es, cur, count)
    requires AtHeader(ino, d, es, k, s) && Reaches(d, es, target, k)
    ensures Forward(src, table, target, cur, count, s).Ok?
    ensures AtHeader(ino, d, es, j, Forward(src, table, target, cur, count, s).value) && Reaches(d, es, target, j)
    decreases count
  {
    j := k;
    if count > 0 {
      var (item, mid) := src.item(cur).value;
      var (name, next) := src.name(mid, item.nameSize).value;
      var i: nat :| PointsAt(table, ino, d, es, item, name, i);
      var visit := Visit(src, target, item, mid);
      if !visit.value.0 {
        var t := s.(cur := Cursor(item.startBlock + table, s.cur.offset), offset := item.index);
        j := ForwardLands(src, table, ino, d, es, target, next, count - 1, t, i);
      }
    }
  }

  /** Fast-forwarding puts the directory at a header that is not behind the target. */
  lemma ForwardHeaderLands(src: Source, table: nat, ino: DirInode, d: Stream, es: seq<Dirent>, target: Target)
    returns (k: nat)
    requires IsDirectory(src, table, ino, d, es)
    ensures k <= |es| && After(d, START, k).header.count == 0 && Reaches(d, es, target, k)
    ensures ForwardHeader(src, table, ino, target, Begin(table, ino)) ==
            Ok(Stand(d, Pos(After(d, START, k).offset, Header(0, 0, 0))))
  {
    k := ForwardLands(src, table, ino, d, es, target, ino.next, ino.idxCount, Begin(table, ino), 0);
  }

  // ---- Opening at an offset ----

  /** The offset at which the listing goes on behind k entries. */
  function Boundary(es: seq<Dirent>, k: nat): nat
    requires k <= |es|
  {
    if k == 0 then 0 else es[k - 1].nextOffset
  }

  /** Skimming to a boundary arrives there. */
  lemma {:induction false} SkimFinds(src: Source, d: Stream, p: Pos, m: nat)
    requires Ends(src) && Steps(d) && Reads(src, d) && Listing(d, p).Some? && m <= |Listing(d, p).value|
    ensures Skim(src, Stand(d, p), After(d, p, m).offset) == Ok(Stand(d, After(d, p, m)))
    decreases m
  {
    AfterMoves(d, p, m);
    if m > 0 {
      SkimFinds(src, d, d.step(p).next, m - 1);
    }
  }

  /** Skimming to anything else fails. */
  lemma {:induction false} SkimMisses(src: Source, d: Stream, p: Pos, offset: nat)
    requires Ends(src) && Steps(d) && Reads(src, d) && Listing(d, p).Some? && p.offset != offset
    requires forall m | 0 <= m < |Listing(d, p).value| :: Listing(d, p).value[m].nextOffset != offset
    ensures Skim(src, Stand(d, p), offset) == Err(Invalid)
    decreases d.size - p.offset
  {
    if p.offset < offset && d.step(p).Yields? {
      var next := d.step(p).next;
      var all, rest := Listing(d, p).value, Listing(d, next).value;
      assert all[0].nextOffset == next.offset;
      assert forall m | 0 <= m < |rest| :: rest[m] == all[m + 1];
      SkimMisses(src, d, next, offset);
    }
  }

  /** A listing can be resumed behind any number of its entries: opening at the offset there, past
      whatever the index skips, leaves the directory as a plain scan of j entries does, and what
      is then listed are exactly the other entries. */
  lemma OpenResumes(src: Source, table: nat, ino: DirInode, d: Stream, es: seq<Dirent>, j: nat)
    requires IsDirectory(src, table, ino, d, es) && j <= |es|
    ensures OpenAt(src, table, ino, Boundary(es, j)) == Ok(Stand(d, After(d, START, j)))
    ensures ListAt(src, OpenAt(src, table, ino, Boundary(es, j)).value) == Ok(es[j..])
  {
    ListingAfter(d, START, j);
    ListIsListing(src, d, After(d, START, j));
    AfterMoves(d, START, j);
    if j > 0 {
      var k := ForwardHeaderLands(src, table, ino, d, es, ToOffset(Boundary(es, j)));
      BeforeBoundary(d, es, k, j);
      SkimFromHeader(src, d, es, k, j);
    }
  }

  lemma BeforeBoundary(d: Stream, es: seq<Dirent>, k: nat, j: nat)
    requires Steps(d) && Listing(d, START) == Some(es) && k <= |es| && 0 < j <= |es|
    requires k == 0 || After(d, START, k).offset < Boundary(es, j)
    ensures k < j
  {
    if k >= j {
      AfterAdd(d, START, j, k - j);
      ListingAfter(d, START, j);
      AfterMoves(d, After(d, START, j), k - j);
      AfterMoves(d, START, j);
    }
  }

  lemma SkimFromHeader(src: Source, d: Stream, es: seq<Dirent>, k: nat, j: nat)
    requires Ends(src) && Steps(d) && Reads(src, d) && Listing(d, START) == Some(es) && k < j <= |es|
    requires After(d, START, k).header.count == 0
    ensures Skim(src, Stand(d, Pos(After(d, START, k).offset, Header(0, 0, 0))), Boundary(es, j)) ==
            Ok(Stand(d, After(d, START, j)))
  {
    var p := After(d, START, k);
    var q := Pos(p.offset, Header(0, 0, 0));
    ListingAfter(d, START, k);
    SameHeader(d, p, j - k);
    AfterAdd(d, START, k, j - k);
    AfterMoves(d, START, j);
    SkimFinds(src, d, q, j - k);
  }

  /** And opening succeeds at those offsets only. */
  lemma OpenRejects(src: Source, table: nat, ino: DirInode, d: Stream, es: seq<Dirent>, offset: nat)
    requires IsDirectory(src, table, ino, d, es)
    requires forall j | 0 <= j <= |es| :: Boundary(es, j) != offset
    ensures OpenAt(src, table, ino, offset) == Err(Invalid)
  {
    assert Boundary(es, 0) == 0;
    var k := ForwardHeaderLands(src, table, ino, d, es, ToOffset(offset));
    var p := After(d, START, k);
    var q := Pos(p.offset, Header(0, 0, 0));
    ListingAfter(d, START, k);
    AfterMoves(d, START, k);
    assert p.offset == Boundary(es, k);
    SameHeader(d, p, 0);
    forall m | 0 <= m < |es[k..]|
      ensures es[k..][m].nextOffset != offset
    {
      assert Boundary(es, k + m + 1) == es[k..][m].nextOffset;
    }
    SkimMisses(src, d, q, offset);
  }

  // ---- Listing in pages ----

  /** Up to m entries, and the offset to go on at. */
  ghost function Page(src: Source, s: State, at: nat, m: nat): Result<(seq<Dirent>, nat)>
    requires Ends(src)
    decreases m
  {
    if m == 0 then Ok(([], at))
    else
      match src.next(s)
      case Err(e) => Err(e)
      case Ok((None, _)) => Ok(([], at))
      case Ok((Some(e), t)) =>
        match Page(src, t, e.nextOffset, m - 1)
        case Err(x) => Err(x)
        case Ok((rest, next)) => Ok(([e] + rest, next))
  }

  /** Opens the directory again and again, each time for a page of the given size at the offset where
      the page before ended. */
  ghost function Pages(src: Source, table: nat, ino: DirInode, at: nat, sizes: seq<nat>): Result<seq<Dirent>>
    requires Ends(src)
    decreases |sizes|
  {
    if sizes == [] then Ok([])
    else
      match OpenAt(src, table, ino, at)
      case Err(e) => Err(e)
      case Ok(s) =>
        match Page(src, s, at, sizes[0])
        case Err(e) => Err(e)
        case Ok((page, next)) =>
          match Pages(src, table, ino, next, sizes[1..])
          case Err(e) => Err(e)
          case Ok(rest) => Ok(page + rest)
  }

  function Sum(sizes: seq<nat>): nat {
    if sizes == [] then 0 else sizes[0] + Sum(sizes[1..])
  }

  lemma {:induction false} PageIsSlice(src: Source, d: Stream, p: Pos, at: nat, m: nat)
    requires Ends(src) && Steps(d) && Reads(src, d) && Listing(d, p).Some?
    ensures var es := Listing(d, p).value;
            var n: nat := Min(m, |es|);
            Page(src, Stand(d, p), at, m) == Ok((es[..n], if n == 0 then at else es[n - 1].nextOffset))
    decreases m
  {
    var es := Listing(d, p).value;
    if m > 0 && es != [] {
      assert Moves(d.size, p, d.step(p));
      PageIsSlice(src, d, d.step(p).next, d.step(p).next.offset, m - 1);
      var n: nat := Min(m, |es|);
      assert es[..n] == [es[0]] + es[1..][..n - 1];
    }
  }

  /** A page read at the boundary behind j entries is the next entries, and ends at the boundary
      behind those. */
  lemma PageAt(src: Source, table: nat, ino: DirInode, d: Stream, es: seq<Dirent>, j: nat, m: nat) returns (k: nat)
    requires IsDirectory(src, table, ino, d, es) && j <= |es|
    ensures j <= k <= |es| && k == Min(|es|, j + m)
    ensures OpenAt(src, table, ino, Boundary(es, j)).Ok?
    ensures Page(src, OpenAt(src, table, ino, Boundary(es, j)).value, Boundary(es, j), m) ==
            Ok((es[j..k], Boundary(es, k)))
  {
    OpenResumes(src, table, ino, d, es, j);
    ListingAfter(d, START, j);
    PageIsSlice(src, d, After(d, START, j), Boundary(es, j), m);
    k := Min(|es|, j + m);
    assert es[j..][..k - j] == es[j..k];
  }

  lemma PageThenPages(src: Source, table: nat, ino: DirInode, at: nat, next: nat, sizes: seq<nat>,
                      page: seq<Dirent>, rest: seq<Dirent>)
    requires Ends(src) && sizes != []
    requires OpenAt(src, table, ino, at).Ok?
    requires Page(src, OpenAt(src, table, ino, at).value, at, sizes[0]) == Ok((page, next))
    requires Pages(src, table, ino, next, sizes[1..]) == Ok(rest)
    ensures Pages(src, table, ino, at, sizes) == Ok(page + rest)
  {
  }

  /** However a listing is cut into pages, the pages put together are the listing. */
  lemma {:induction false} PagesAreListing(src: Source, table: nat, ino: DirInode, d: Stream, es: seq<Dirent>,
                                           j: nat, sizes: seq<nat>)
    requires IsDirectory(src, table, ino, d, es) && j <= |es|
    ensures Pages(src, table, ino, Boundary(es, j), sizes) == Ok(es[j..Min(|es|, j + Sum(sizes))])
    decreases |sizes|
  {
    var end: nat := Min(|es|, j + Sum(sizes));
    if sizes == [] {
      assert es[j..end] == [];
    } else {
      var k := PageAt(src, table, ino, d, es, j, sizes[0]);
      PagesAreListing(src, table, ino, d, es, k, sizes[1..]);
      Adjacent(es, j, k, end);
      PageThenPages(src, table, ino, Boundary(es, j), Boundary(es, k), sizes, es[j..k], es[k..end]);
    }
  }
}
