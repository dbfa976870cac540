/** sqfs_dir: reading directories through the metadata cache.
    A clause `P() == true` is proved as one fact, and not conjunct by conjunct, which keeps the proofs quick. */
module DirReader {
  import opened Prelude
  import opened Image
  import opened Blocks
  import opened Fs
  import opened Dir

  /** What sqfs_dir_next hands back: no name when there is no buffer for it. */
  function Shown(r: Result<(Option<Dirent>, State)>, names: bool): Result<(Option<Dirent>, State)> {
    match r
    case Ok((Some(e), t)) => Ok((Some(if names then e else e.(name := [])), t))
    case _ => r
  }

  class Directory {
    const md: BlockCache
    ghost const im: Image
    ghost const src: Source
    var cur: Cursor
    var offset: nat
    var total: nat
    var header: Header

    /** The cache reads the metadata of the image, and `src` is what reading it means. */
    ghost predicate Valid()
      reads md.Repr()
    {
      md.Valid() && Serves(md, im) && Means(src, im) && Ends(src) && this !in md.Repr()
    }

    function View(): State
      reads this
    {
      State(cur, offset, total, header)
    }

    /** sqfs_dir_open, up to fast-forwarding. */
    constructor (md: BlockCache, ghost im: Image, ghost src: Source, table: nat, ino: DirInode)
      ensures this.md == md && this.im == im && this.src == src && View() == Begin(table, ino)
    {
      this.md := md;
      this.im := im;
      this.src := src;
      cur := Cursor(ino.startBlock + table, ino.offset);
      offset := 0;
      total := if ino.dirSize <= 3 then 0 else ino.dirSize - 3;
      header := Header(0, 0, 0);
    }

    /** sqfs_dir_md_read. */
    method MdRead(n: nat, copy: bool) returns (r: Result<seq<Byte>>)
      requires Valid()
      modifies this, md.Repr()
      ensures Valid() && md.held == old(md.held)
      ensures r.Ok? ==> ReadDir(im, old(View()), n).Ok? && View() == ReadDir(im, old(View()), n).value.1
      ensures r.Ok? ==> r.value == if copy then ReadDir(im, old(View()), n).value.0 else []
      ensures r.Err? ==> r == Err(AssertFailed) || ReadDir(im, old(View()), n) == Err(r.error)
      ensures !old(md.failed) && 0 < old(cur.block) ==> r != Err(AssertFailed)
      ensures r.Ok? ==> md.failed == old(md.failed) && old(cur.block) <= cur.block
    {
      offset := offset + n;
      var got := Fs.MdRead(md, im, cur, n, copy);
      if got.Err? {
        return Err(got.error);
      }
      cur := got.value.1;
      return Ok(got.value.0);
    }

    /** The loop of sqfs_dir_next: reads headers until a run has entries. */
    method ReadHeaders(ghost from: nat) returns (r: Result<bool>)
      requires Valid()
      modifies this, md.Repr()
      ensures Valid() && md.held == old(md.held)
      ensures r == Ok(true) ==> 0 < header.count && NextFrom(im, from, old(View())) == EntryAt(im, from, View())
      ensures r == Ok(false) ==> NextFrom(im, from, old(View())) == Ok((None, View()))
      ensures r.Err? ==> r == Err(AssertFailed) || NextFrom(im, from, old(View())) == Err(r.error)
      ensures !old(md.failed) && 0 < old(cur.block) ==> r != Err(AssertFailed)
      ensures r.Ok? ==> md.failed == old(md.failed) && old(cur.block) <= cur.block
    {
      while header.count == 0
        invariant Valid() && md.held == old(md.held)
        invariant md.failed == old(md.failed) && old(cur.block) <= cur.block
        invariant NextFrom(im, from, old(View())) == NextFrom(im, from, View())
        decreases Left(View()), header.count == 0
      {
        if offset >= total {
          return Ok(false);
        }
        var got := MdRead(HEADER_SIZE, true);
        if got.Err? {
          return Err(got.error);
        }
        header := HeaderOf(got.value);
      }
      return Ok(true);
    }

    /** The rest of sqfs_dir_next: an entry of the current run. */
    method ReadEntry(from: nat, names: bool) returns (r: Result<Option<Dirent>>)
      requires Valid() && 0 < header.count
      modifies this, md.Repr()
      ensures Valid() && md.held == old(md.held)
      ensures r.Ok? ==> Shown(EntryAt(im, from, old(View())), names) == Ok((r.value, View()))
      ensures r.Err? ==> r == Err(AssertFailed) || EntryAt(im, from, old(View())) == Err(r.error)
      ensures !old(md.failed) && 0 < old(cur.block) ==> r != Err(AssertFailed)
      ensures r.Ok? ==> md.failed == old(md.failed) && old(cur.block) <= cur.block
    {
      var raw := MdRead(ENTRY_SIZE, true);
      if raw.Err? {
        return Err(raw.error);
      }
      var h := header;
      header := header.(count := header.count - 1);
      var name := MdRead(NameSize(raw.value), names);
      if name.Err? {
        return Err(name.error);
      }
      return Ok(Some(EntryOf(h, raw.value, name.value, from, offset)));
    }

    /** sqfs_dir_next: the next entry, or nothing at the end. */
    method Next(names: bool) returns (r: Result<Option<Dirent>>)
      requires Valid()
      modifies this, md.Repr()
      ensures Valid() && md.held == old(md.held)
      ensures r.Ok? ==> Shown(src.next(old(View())), names) == Ok((r.value, View()))
      ensures r.Err? ==> r == Err(AssertFailed) || src.next(old(View())) == Err(r.error)
      ensures !old(md.failed) && 0 < old(cur.block) ==> r != Err(AssertFailed)
      ensures r.Ok? ==> md.failed == old(md.failed) && old(cur.block) <= cur.block
    {
      assert src.next(View()) == NextAt(im, View());
      var from := offset;
      var more := ReadHeaders(from);
      if more.Err? {
        return Err(more.error);
      }
      if !more.value {
        return Ok(None);
      }
      r := ReadEntry(from, names);
    }

    /** One turn of the loop in sqfs_dir_ff_header: to the header that an index entry names, unless
        the callback stops. */
    method IndexTurn(table: nat, target: Target, at: Cursor, ghost count: nat)
      returns (r: Result<Option<Cursor>>)
      requires Valid() && 0 < count
      modifies this, md.Repr()
      ensures Valid() && md.held == old(md.held)
      ensures r.Ok? ==>
                Forward(src, table, target, at, count, old(View())) ==
                (if r.value.None? then Ok(View()) else Forward(src, table, target, r.value.value, count - 1, View()))
      ensures r.Err? ==> r == Err(AssertFailed) || Forward(src, table, target, at, count, old(View())) == Err(r.error)
      ensures !old(md.failed) && 0 < at.block ==> r != Err(AssertFailed)
      ensures r.Ok? ==> md.failed == old(md.failed) && (0 < old(cur.block) && 0 < table ==> 0 < cur.block)
      ensures r.Ok? && r.value.Some? ==> at.block <= r.value.value.block
    {
      var got := ReadItem(md, im, src, at);
      if got.Err? {
        return Err(got.error);
      }
      var (item, mid) := got.value;
      var visit := VisitItem(md, im, src, target, item, mid);
      if visit.Err? {
        return Err(visit.error);
      }
      if visit.value.0 {
        return Ok(None);
      }
      cur := Cursor(item.startBlock + table, cur.offset);
      offset := item.index;
      return Ok(Some(visit.value.1));
    }

    /** sqfs_dir_ff_header. */
    method FastForward(table: nat, ino: DirInode, target: Target) returns (r: Result<()>)
      requires Valid()
      modifies this, md.Repr()
      ensures Valid() && md.held == old(md.held)
      ensures r.Ok? ==> ForwardHeader(src, table, ino, target, old(View())) == Ok(View())
      ensures r.Err? ==> r == Err(AssertFailed) || ForwardHeader(src, table, ino, target, old(View())) == Err(r.error)
      ensures !old(md.failed) && 0 < ino.next.block ==> r != Err(AssertFailed)
      ensures r.Ok? ==> md.failed == old(md.failed) && (0 < old(cur.block) && 0 < table ==> 0 < cur.block)
    {
      if ino.idxCount == 0 {
        return Ok(());
      }
      var at, count: nat := ino.next, ino.idxCount;
      ghost var goal := Forward(src, table, target, at, count, View());
      while count > 0
        invariant Valid() && md.held == old(md.held)
        invariant md.failed == old(md.failed) && ino.next.block <= at.block
        invariant 0 < old(cur.block) && 0 < table ==> 0 < cur.block
        invariant goal == Forward(src, table, target, at, count, View())
        decreases count
      {
        var turn := IndexTurn(table, target, at, count);
        count := count - 1;
        if turn.Err? {
          return Err(turn.error);
        }
        if turn.value.None? {
          break;
        }
        at := turn.value.value;
      }
      cur := Cursor(cur.block, (cur.offset + offset) % METADATA_SIZE);
      return Ok(());
    }

    /** The loop of sqfs_dir_ff_offset, and its verdict. */
    method SkipTo(to: nat) returns (r: Result<()>)
      requires Valid()
      modifies this, md.Repr()
      ensures Valid() && md.held == old(md.held)
      ensures r.Ok? ==> Skim(src, old(View()), to) == Ok(View())
      ensures r.Err? ==> r == Err(AssertFailed) || Skim(src, old(View()), to) == Err(r.error)
      ensures !old(md.failed) && 0 < old(cur.block) ==> r != Err(AssertFailed)
      ensures r.Ok? ==> md.failed == old(md.failed)
    {
      while offset < to
        invariant Valid() && md.held == old(md.held)
        invariant md.failed == old(md.failed) && old(cur.block) <= cur.block
        invariant Skim(src, old(View()), to) == Skim(src, View(), to)
        decreases Left(View()), header.count
      {
        var got := Next(false);
        if got.Err? {
          return Err(got.error);
        }
        if got.value.None? {
          break;
        }
      }
      return if offset == to then Ok(()) else Err(Invalid);
    }

    /** The last loop of sqfs_dir_lookup. */
    method Find(name: seq<Byte>) returns (r: Result<Option<Dirent>>)
      requires Valid()
      modifies this, md.Repr()
      ensures Valid() && md.held == old(md.held)
      ensures r == Err(AssertFailed) || r == Search(src, old(View()), name)
      ensures !old(md.failed) && 0 < old(cur.block) ==> r != Err(AssertFailed)
      ensures r.Ok? ==> md.failed == old(md.failed)
    {
      while true
        invariant Valid() && md.held == old(md.held)
        invariant md.failed == old(md.failed) && old(cur.block) <= cur.block
        invariant Search(src, old(View()), name) == Search(src, View(), name)
        decreases Left(View()), header.count
      {
        var got := Next(true);
        if got.Err? {
          return Err(got.error);
        }
        if got.value.None? {
          return Ok(None);
        }
        var e := got.value.value;
        var order := StrNCmp(e.name, name, |name|);
        if order >= 0 {
          return Ok(if order == 0 && |e.name| == |name| then Some(e) else None);
        }
      }
    }
  }

  /** sqfs_md_read of an index entry. */
  method ReadItem(md: BlockCache, ghost im: Image, ghost src: Source, at: Cursor)
    returns (r: Result<(IndexItem, Cursor)>)
    requires md.Valid() && Serves(md, im) && Means(src, im)
    modifies md.Repr()
    ensures md.Valid() && md.held == old(md.held)
    ensures r == Err(AssertFailed) || r == src.item(at)
    ensures r.Ok? ==> md.failed == old(md.failed) && at.block <= r.value.1.block
    ensures !old(md.failed) && 0 < at.block ==> r != Err(AssertFailed)
  {
    assert src.item(at) == ItemAt(im, at);
    var got := MdRead(md, im, at, INDEX_SIZE, true);
    match got
    case Err(e) => r := Err(e);
    case Ok((bytes, next)) => r := Ok((ItemOf(bytes), next));
  }

  /** sqfs_dir_ff_offset_f and sqfs_dir_ff_name_f. */
  method VisitItem(md: BlockCache, ghost im: Image, ghost src: Source, target: Target, item: IndexItem, at: Cursor)
    returns (r: Result<(bool, Cursor)>)
    requires md.Valid() && Serves(md, im) && Means(src, im)
    modifies md.Repr()
    ensures md.Valid() && md.held == old(md.held)
    ensures r == Err(AssertFailed) || r == Visit(src, target, item, at)
    ensures r.Ok? ==> md.failed == old(md.failed) && at.block <= r.value.1.block
    ensures !old(md.failed) && 0 < at.block ==> r != Err(AssertFailed)
  {
    if target.ToOffset? && item.index >= target.offset {
      return Ok((true, at));
    }
    var got := MdRead(md, im, at, item.nameSize, target.ToName?);
    if got.Err? {
      return Err(got.error);
    }
    return Ok((target.ToName? && Beyond(got.value.0, target.name), got.value.1));
  }

  /** sqfs_dir_open. */
  method Open(md: BlockCache, ghost im: Image, ghost src: Source, table: nat, ino: DirInode, offset: nat)
    returns (r: Result<Directory>)
    requires md.Valid() && Serves(md, im) && Means(src, im) && Ends(src)
    modifies md.Repr()
    ensures md.Valid() && md.held == old(md.held)
    ensures r.Ok? ==> fresh(r.value) && r.value.md == md && r.value.src == src && r.value.Valid() == true
    ensures r.Ok? ==> OpenAt(src, table, ino, offset) == Ok(r.value.View())
    ensures r.Err? ==> r == Err(AssertFailed) || OpenAt(src, table, ino, offset) == Err(r.error)
    ensures !old(md.failed) && 0 < table && (ino.isDir ==> 0 < ino.next.block) ==> r != Err(AssertFailed)
    ensures r.Ok? ==> md.failed == old(md.failed)
  {
    if !ino.isDir {
      return Err(Invalid);
    }
    var dir := new Directory(md, im, src, table, ino);
    if offset > 0 {
      var there := dir.FastForward(table, ino, ToOffset(offset));
      if there.Err? {
        return Err(there.error);
      }
      there := dir.SkipTo(offset);
      if there.Err? {
        return Err(there.error);
      }
    }
    return Ok(dir);
  }

  /** sqfs_dir_lookup. */
  method Lookup(md: BlockCache, ghost im: Image, ghost src: Source, table: nat, ino: DirInode, name: seq<Byte>)
    returns (r: Result<Option<Dirent>>)
    requires md.Valid() && Serves(md, im) && Means(src, im) && Ends(src)
    modifies md.Repr()
    ensures md.Valid() && md.held == old(md.held)
    ensures r == Err(AssertFailed) || r == LookupAt(src, table, ino, name)
    ensures !old(md.failed) && 0 < table && (ino.isDir ==> 0 < ino.next.block) ==> r != Err(AssertFailed)
    ensures r.Ok? ==> md.failed == old(md.failed)
  {
    var dir := Open(md, im, src, table, ino, 0);
    if dir.Err? {
      return Err(dir.error);
    }
    var there := dir.value.FastForward(table, ino, ToName(name));
    if there.Err? {
      return Err(there.error);
    }
    r := dir.value.Find(name);
  }
}
