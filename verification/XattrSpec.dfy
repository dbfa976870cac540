/** Extended attributes: what the entries of an inode say, and when skipping one agrees with reading it. */
module XattrSpec {
  import opened Prelude
  import opened Image

  const HEAD_SIZE := 4
  const VAL_SIZE := 4
  const REF_SIZE := 8

  /** squashfs_xattr_entry: the prefix and whether the value is kept elsewhere, and the name's size
      without the prefix. */
  datatype Head = Head(kind: nat, ool: bool, size: nat)

  function HeadOf(bytes: seq<Byte>): Head
    requires |bytes| == HEAD_SIZE
  {
    Head(U16(bytes, 0) % 0x100, U16(bytes, 0) / 0x100 % 2 == 1, U16(bytes, 2))
  }

  /** sqfs_md_cursor_inode: the cursor of a 48-bit reference. */
  function CursorOf(ref: nat, base: nat): Cursor {
    Cursor(ref / 0x1_0000 + base, ref % 0x1_0000)
  }

  /** How the parts of an entry are read: its head, a value's size, a reference, and plain bytes. */
  datatype Source = Source(head: Cursor -> Result<(Head, Cursor)>, size: Cursor -> Result<(nat, Cursor)>,
                           ref: Cursor -> Result<(nat, Cursor)>, bytes: (Cursor, nat) -> Result<(seq<Byte>, Cursor)>)

  function HeadAt(im: Image, cur: Cursor): Result<(Head, Cursor)> {
    match ReadAt(im, cur, HEAD_SIZE)
    case Err(e) => Err(e)
    case Ok((b, next)) => Ok((HeadOf(b), next))
  }

  function SizeAt(im: Image, cur: Cursor): Result<(nat, Cursor)> {
    match ReadAt(im, cur, VAL_SIZE)
    case Err(e) => Err(e)
    case Ok((b, next)) => Ok((U32(b, 0), next))
  }

  function RefAt(im: Image, cur: Cursor): Result<(nat, Cursor)> {
    match ReadAt(im, cur, REF_SIZE)
    case Err(e) => Err(e)
    case Ok((b, next)) => Ok((U64(b, 0), next))
  }

  function On(im: Image): Source {
    Source((cur: Cursor) => HeadAt(im, cur), (cur: Cursor) => SizeAt(im, cur), (cur: Cursor) => RefAt(im, cur),
           (cur: Cursor, n: nat) => ReadAt(im, cur, n))
  }

  /** `src` reads the image. */
  ghost predicate Means(src: Source, im: Image) {
    && (forall cur {:trigger HeadAt(im, cur)} :: src.head(cur) == HeadAt(im, cur))
    && (forall cur {:trigger SizeAt(im, cur)} :: src.size(cur) == SizeAt(im, cur))
    && (forall cur {:trigger RefAt(im, cur)} :: src.ref(cur) == RefAt(im, cur))
    && (forall cur, n {:trigger ReadAt(im, cur, n)} :: src.bytes(cur, n) == ReadAt(im, cur, n))
  }

  lemma OnImage(im: Image)
    ensures Means(On(im), im)
  {
  }

  // ---- An entry, part by part ----

  /** The name of the entry at `at`, and the cursor behind it. */
  function NameAt(src: Source, at: Cursor): Result<(seq<Byte>, Cursor)> {
    match src.head(at)
    case Err(e) => Err(e)
    case Ok((h, c)) => src.bytes(c, h.size)
  }

  /** The size of the value kept inline, and the cursor behind it. */
  function InlineAt(src: Source, at: Cursor): Result<(nat, Cursor)> {
    match NameAt(src, at)
    case Err(e) => Err(e)
    case Ok((_, c)) => src.size(c)
  }

  /** The reference to a value kept elsewhere, and the cursor behind it. */
  function RefOf(src: Source, at: Cursor): Result<(nat, Cursor)> {
    match InlineAt(src, at)
    case Err(e) => Err(e)
    case Ok((_, c)) => src.ref(c)
  }

  /** The size of the value and the cursor of its bytes; `ool` says to follow the reference. */
  function ValAt(src: Source, base: nat, at: Cursor, ool: bool): Result<(nat, Cursor)> {
    if !ool then InlineAt(src, at)
    else
      match RefOf(src, at)
      case Err(e) => Err(e)
      case Ok((ref, _)) => src.size(CursorOf(ref, base))
  }

  /** The value, and the cursor behind its bytes. */
  function ValueAt(src: Source, base: nat, at: Cursor, ool: bool): Result<(seq<Byte>, Cursor)> {
    match ValAt(src, base, at, ool)
    case Err(e) => Err(e)
    case Ok((n, c)) => src.bytes(c, n)
  }

  /** Where the next entry starts: behind the reference, or behind the value. */
  function NextAt(src: Source, base: nat, at: Cursor, ool: bool): Result<Cursor> {
    if ool then
      match RefOf(src, at)
      case Err(e) => Err(e)
      case Ok((_, c)) => Ok(c)
    else
      match ValueAt(src, base, at, false)
      case Err(e) => Err(e)
      case Ok((_, c)) => Ok(c)
  }

  // ---- Eager parsing ----

  datatype Attr = Attr(kind: nat, name: seq<Byte>, value: seq<Byte>)

  const PREFIX_MAX := 2

  /** The whole entry at `at`, and where the next one starts. */
  function AttrAt(src: Source, base: nat, at: Cursor): Result<(Attr, Cursor)> {
    match src.head(at)
    case Err(e) => Err(e)
    case Ok((h, _)) =>
      if h.kind > PREFIX_MAX then Err(Invalid)
      else
        match (NameAt(src, at), ValueAt(src, base, at, h.ool), NextAt(src, base, at, h.ool))
        case (Ok(name), Ok(value), Ok(next)) => Ok((Attr(h.kind, name.0, value.0), next))
        case _ => Err(IoError)
  }

  /** All `count` entries from `at` on. */
  function ListAt(src: Source, base: nat, at: Cursor, count: nat): Result<seq<Attr>>
    decreases count
  {
    if count == 0 then Ok([])
    else
      match AttrAt(src, base, at)
      case Err(e) => Err(e)
      case Ok((a, next)) =>
        match ListAt(src, base, next, count - 1)
        case Err(e) => Err(e)
        case Ok(rest) => Ok([a] + rest)
  }

  // ---- Skipping an entry ----

  /** Reading moves a cursor forward. */
  lemma {:induction false} ReadMoves(im: Image, cur: Cursor, n: nat)
    requires 0 < n && ReadAt(im, cur, n).Ok?
    ensures var c := ReadAt(im, cur, n).value.1;
            cur.block < c.block || (cur.block == c.block && cur.offset < c.offset)
    decreases im.size - cur.block
  {
    var b := MdAt(im, cur.block).value;
    if n > |b.data| - cur.offset {
      var next := Cursor(cur.block + b.diskSize, 0);
      ReadMoves(im, next, n - (|b.data| - cur.offset));
    }
  }

  /** So reads of different lengths end at different cursors. */
  lemma ReadsDiffer(im: Image, cur: Cursor, m: nat, n: nat)
    requires m < n && ReadAt(im, cur, m).Ok? && ReadAt(im, cur, n).Ok?
    ensures ReadAt(im, cur, m).value.1 != ReadAt(im, cur, n).value.1
  {
    assert m + (n - m) == n;
    ReadSplit(im, cur, m, n - m);
    ReadMoves(im, ReadAt(im, cur, m).value.1, n - m);
  }

  /** An entry that was not looked at is skipped by its inline size, also if its value is kept elsewhere.
      That leads to the next entry exactly if the inline size is then the size of the reference. */
  lemma SkipIsNext(im: Image, base: nat, at: Cursor)
    requires AttrAt(On(im), base, at).Ok?
    ensures InlineAt(On(im), at).Ok?
    ensures NextAt(On(im), base, at, false) == Ok(AttrAt(On(im), base, at).value.1) <==>
            !On(im).head(at).value.0.ool || InlineAt(On(im), at).value.0 == REF_SIZE
  {
    var src := On(im);
    if src.head(at).value.0.ool {
      var (n, c) := InlineAt(src, at).value;
      assert ReadAt(im, c, REF_SIZE).Ok? && AttrAt(src, base, at).value.1 == ReadAt(im, c, REF_SIZE).value.1;
      if ReadAt(im, c, n).Ok? {
        if n < REF_SIZE {
          ReadsDiffer(im, c, n, REF_SIZE);
        } else if n > REF_SIZE {
          ReadsDiffer(im, c, REF_SIZE, n);
        }
      }
    }
  }
}
