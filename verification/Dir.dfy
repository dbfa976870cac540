/** Directories: what reading, opening at an offset and looking up a name mean on an image. */
module Dir {
  import opened Prelude
  import opened Image

  const HEADER_SIZE := 12
  const ENTRY_SIZE := 8
  const INDEX_SIZE := 12

  /** The fields of a directory inode that reading uses. */
  datatype DirInode = DirInode(isDir: bool, startBlock: nat, offset: nat, dirSize: nat, idxCount: nat, next: Cursor)

  /** squashfs_dir_header, its count already biased: how many entries of the run are left. */
  datatype Header = Header(count: nat, startBlock: nat, number: nat)

  /** sqfs_dir. */
  datatype State = State(cur: Cursor, offset: nat, total: nat, header: Header)

  /** sqfs_dir_entry. */
  datatype Dirent = Dirent(kind: nat, inode: nat, number: nat, name: seq<Byte>, offset: nat, nextOffset: nat)

  /** squashfs_dir_index: the listing offset of a header and the metadata block that holds it. */
  datatype IndexItem = IndexItem(index: nat, startBlock: nat, nameSize: nat)

  // ---- Decoding ----

  function HeaderOf(bytes: seq<Byte>): Header
    requires |bytes| == HEADER_SIZE
  {
    Header((U32(bytes, 0) + 1) % 0x1_0000_0000, U32(bytes, 4), U32(bytes, 8))
  }

  /** A 16-bit two's complement number. */
  function S16(v: nat): int {
    if v < 0x8000 then v else v - 0x1_0000
  }

  function NameSize(bytes: seq<Byte>): nat
    requires |bytes| == ENTRY_SIZE
  {
    U16(bytes, 6) + 1
  }

  function EntryOf(h: Header, bytes: seq<Byte>, name: seq<Byte>, from: nat, to: nat): Dirent
    requires |bytes| == ENTRY_SIZE
  {
    Dirent(U16(bytes, 4), h.startBlock * 0x1_0000 + U16(bytes, 0), (h.number + S16(U16(bytes, 2))) % 0x1_0000_0000,
          name, from, to)
  }

  function ItemOf(bytes: seq<Byte>): IndexItem
    requires |bytes| == INDEX_SIZE
  {
    IndexItem(U32(bytes, 0), U32(bytes, 4), (U32(bytes, 8) + 1) % 0x1_0000_0000)
  }

  // ---- Reading entries ----

  /** sqfs_dir_md_read. */
  function ReadDir(im: Image, s: State, n: nat): (r: Result<(seq<Byte>, State)>)
    ensures r.Ok? ==> |r.value.0| == n && r.value.1 == s.(cur := r.value.1.cur, offset := s.offset + n)
  {
    match ReadAt(im, s.cur, n)
    case Err(e) => Err(e)
    case Ok((bytes, cur)) => Ok((bytes, s.(cur := cur, offset := s.offset + n)))
  }

  /** How much of the listing is left before no more headers are read. */
  function Left(s: State): nat {
    if s.offset < s.total then s.total - s.offset else 0
  }

  /** The rest of sqfs_dir_next, inside a run. */
  function EntryAt(im: Image, from: nat, s: State): (r: Result<(Option<Dirent>, State)>)
    requires 0 < s.header.count
    ensures r.Ok? ==> r.value.0.Some? && s.offset < r.value.1.offset && r.value.1.total == s.total
    ensures r.Ok? ==> r.value.1.header == s.header.(count := s.header.count - 1)
  {
    match ReadDir(im, s, ENTRY_SIZE)
    case Err(e) => Err(e)
    case Ok((bytes, t)) =>
      var u := t.(header := t.header.(count := t.header.count - 1));
      match ReadDir(im, u, NameSize(bytes))
      case Err(e) => Err(e)
      case Ok((name, v)) => Ok((Some(EntryOf(s.header, bytes, name, from, v.offset)), v))
  }

  /** The meaning of sqfs_dir_next, which started at the offset `from`: reads headers until a run
      has entries, then an entry; or nothing at the end of the listing. */
  function NextFrom(im: Image, from: nat, s: State): (r: Result<(Option<Dirent>, State)>)
    ensures r.Ok? ==> r.value.1.total == s.total && s.offset <= r.value.1.offset
    ensures r.Ok? && r.value.0.Some? ==>
              Left(r.value.1) < Left(s) || (Left(r.value.1) == Left(s) && r.value.1.header.count < s.header.count)
    decreases Left(s)
  {
    if 0 < s.header.count then EntryAt(im, from, s)
    else if s.offset >= s.total then Ok((None, s))
    else
      match ReadDir(im, s, HEADER_SIZE)
      case Err(e) => Err(e)
      case Ok((bytes, t)) => NextFrom(im, from, t.(header := HeaderOf(bytes)))
  }

  function NextAt(im: Image, s: State): Result<(Option<Dirent>, State)> {
    NextFrom(im, s.offset, s)
  }

  /** How directories are read: an entry, an index entry, and the name behind that. */
  datatype Source = Source(next: State -> Result<(Option<Dirent>, State)>,
                           item: Cursor -> Result<(IndexItem, Cursor)>,
                           name: (Cursor, nat) -> Result<(seq<Byte>, Cursor)>)

  function ItemAt(im: Image, cur: Cursor): Result<(IndexItem, Cursor)> {
    match ReadAt(im, cur, INDEX_SIZE)
    case Err(e) => Err(e)
    case Ok((bytes, next)) => Ok((ItemOf(bytes), next))
  }

  function On(im: Image): Source {
    Source((s: State) => NextAt(im, s), (cur: Cursor) => ItemAt(im, cur), (cur: Cursor, n: nat) => ReadAt(im, cur, n))
  }

  ghost predicate Nearer(t: State, s: State) {
    Left(t) < Left(s) || (Left(t) == Left(s) && t.header.count < s.header.count)
  }

  /** Reading entries comes to an end. */
  ghost predicate Ends(src: Source) {
    forall s :: src.next(s).Ok? && src.next(s).value.0.Some? ==> Nearer(src.next(s).value.1, s)
  }

  /** `src` reads the image. */
  ghost predicate Means(src: Source, im: Image) {
    && (forall s {:trigger NextAt(im, s)} :: src.next(s) == NextAt(im, s))
    && (forall cur {:trigger ItemAt(im, cur)} :: src.item(cur) == ItemAt(im, cur))
    && (forall cur, n {:trigger ReadAt(im, cur, n)} :: src.name(cur, n) == ReadAt(im, cur, n))
  }

  lemma OnImage(im: Image)
    ensures Means(On(im), im) && Ends(On(im))
  {
    forall s: State | On(im).next(s).Ok? && On(im).next(s).value.0.Some?
      ensures Nearer(On(im).next(s).value.1, s)
    {
      assert On(im).next(s) == NextFrom(im, s.offset, s);
    }
  }

  // ---- Fast-forwarding ----

  /** What a directory is forwarded to, and with it the callback that says where to stop. */
  datatype Target = ToOffset(offset: nat) | ToName(name: seq<Byte>)

  /** strncmp, of strings written without their terminators. */
  function StrNCmp(a: seq<Byte>, b: seq<Byte>, n: nat): int
    decreases n
  {
    if n == 0 then 0
    else
      var x, y := if a == [] then 0 else a[0] as int, if b == [] then 0 else b[0] as int;
      if x != y then x - y
      else if x == 0 then 0
      else StrNCmp(a[1..], b[1..], n - 1)
  }

  /** The index name `a` is behind `name`. */
  predicate Beyond(a: seq<Byte>, name: seq<Byte>) {
    var order := StrNCmp(a, name, |name|);
    order > 0 || (order == 0 && |a| > |name|)
  }

  /** sqfs_dir_ff_offset_f and sqfs_dir_ff_name_f: whether to stop, and the cursor behind the name. */
  function Visit(src: Source, target: Target, item: IndexItem, cur: Cursor): Result<(bool, Cursor)> {
    if target.ToOffset? && item.index >= target.offset then Ok((true, cur))
    else
      match src.name(cur, item.nameSize)
      case Err(e) => Err(e)
      case Ok((name, next)) => Ok((target.ToName? && Beyond(name, target.name), next))
  }

  /** The loop of sqfs_dir_ff_header over `count` index entries under `cur`. */
  function Forward(src: Source, table: nat, target: Target, cur: Cursor, count: nat, s: State): (r: Result<State>)
    ensures r.Ok? ==> r.value.total == s.total && r.value.header == s.header && r.value.cur.offset == s.cur.offset
    decreases count
  {
    if count == 0 then Ok(s)
    else
      match src.item(cur)
      case Err(e) => Err(e)
      case Ok((item, mid)) =>
        match Visit(src, target, item, mid)
        case Err(e) => Err(e)
        case Ok((stop, next)) =>
          if stop then Ok(s)
          else Forward(src, table, target, next, count - 1,
                       s.(cur := Cursor(item.startBlock + table, s.cur.offset), offset := item.index))
  }

  /** sqfs_dir_ff_header. */
  function ForwardHeader(src: Source, table: nat, ino: DirInode, target: Target, s: State): Result<State> {
    if ino.idxCount == 0 then Ok(s)
    else
      match Forward(src, table, target, ino.next, ino.idxCount, s)
      case Err(e) => Err(e)
      case Ok(t) => Ok(t.(cur := Cursor(t.cur.block, (t.cur.offset + t.offset) % METADATA_SIZE)))
  }

  // ---- Opening and looking up ----

  /** The length of the listing: an inode's size counts three bytes that are not there. */
  function Total(ino: DirInode): nat {
    if ino.dirSize <= 3 then 0 else ino.dirSize - 3
  }

  /** sqfs_dir_open at the beginning. */
  function Begin(table: nat, ino: DirInode): State {
    State(Cursor(ino.startBlock + table, ino.offset), 0, Total(ino), Header(0, 0, 0))
  }

  /** The loop of sqfs_dir_ff_offset, and its verdict. */
  ghost function Skim(src: Source, s: State, offset: nat): Result<State>
    requires Ends(src)
    decreases Left(s), s.header.count
  {
    if s.offset >= offset then (if s.offset == offset then Ok(s) else Err(Invalid))
    else
      match src.next(s)
      case Err(e) => Err(e)
      case Ok((None, t)) => if t.offset == offset then Ok(t) else Err(Invalid)
      case Ok((Some(_), t)) => Skim(src, t, offset)
  }

  /** The meaning of sqfs_dir_open. */
  ghost function OpenAt(src: Source, table: nat, ino: DirInode, offset: nat): Result<State>
    requires Ends(src)
  {
    if !ino.isDir then Err(Invalid)
    else if offset == 0 then Ok(Begin(table, ino))
    else
      match ForwardHeader(src, table, ino, ToOffset(offset), Begin(table, ino))
      case Err(e) => Err(e)
      case Ok(s) => Skim(src, s, offset)
  }

  /** The last loop of sqfs_dir_lookup. */
  ghost function Search(src: Source, s: State, name: seq<Byte>): Result<Option<Dirent>>
    requires Ends(src)
    decreases Left(s), s.header.count
  {
    match src.next(s)
    case Err(e) => Err(e)
    case Ok((None, _)) => Ok(None)
    case Ok((Some(e), t)) =>
      var order := StrNCmp(e.name, name, |name|);
      if order < 0 then Search(src, t, name)
      else if order == 0 && |e.name| == |name| then Ok(Some(e))
      else Ok(None)
  }

  /** The meaning of sqfs_dir_lookup. */
  ghost function LookupAt(src: Source, table: nat, ino: DirInode, name: seq<Byte>): Result<Option<Dirent>>
    requires Ends(src)
  {
    if !ino.isDir then Err(Invalid)
    else
      match ForwardHeader(src, table, ino, ToName(name), Begin(table, ino))
      case Err(e) => Err(e)
      case Ok(s) => Search(src, s, name)
  }
}
