/** The bytes of a directory: parsing them as entries, and that reading the image through a cursor is
    parsing them. */
module DirBytes {
  import opened Prelude
  import opened Image
  import opened Dir
  import opened DirListing

  function EntryIn(b: seq<Byte>, from: nat, p: Pos): (r: Step)
    requires 0 < p.header.count && from <= p.offset
    ensures r.Yields? ==>
              p.offset < r.next.offset <= |b| && r.entry.offset == from && r.entry.nextOffset == r.next.offset
  {
    var at: nat := p.offset + ENTRY_SIZE;
    if at > |b| then Bad
    else
      var raw := b[p.offset..at];
      var to: nat := at + NameSize(raw);
      if to > |b| then Bad
      else Yields(EntryOf(p.header, raw, b[at..to], from, to), Pos(to, p.header.(count := p.header.count - 1)))
  }

  /** The next entry of a directory. A run without entries is malformed. */
  function StepIn(b: seq<Byte>, p: Pos): (r: Step)
    ensures r.Yields? ==>
              p.offset < r.next.offset <= |b| && r.entry.offset == p.offset && r.entry.nextOffset == r.next.offset
  {
    if 0 < p.header.count then EntryIn(b, p.offset, p)
    else if p.offset >= |b| then Done
    else if p.offset + HEADER_SIZE > |b| then Bad
    else
      var h := HeaderOf(b[p.offset..p.offset + HEADER_SIZE]);
      if h.count == 0 then Bad else EntryIn(b, p.offset, Pos(p.offset + HEADER_SIZE, h))
  }

  function StreamOf(b: seq<Byte>, cursor: nat -> Cursor): Stream {
    Stream(|b|, cursor, (p: Pos) => StepIn(b, p))
  }

  lemma ReadStand(im: Image, b: seq<Byte>, d: Stream, p: Pos, n: nat)
    requires Holds(im, b, d.cursor) && d.size == |b| && p.offset + n <= |b|
    ensures ReadDir(im, Stand(d, p), n) == Ok((b[p.offset..p.offset + n], Stand(d, p.(offset := p.offset + n))))
  {
    assert ReadAt(im, d.cursor(p.offset), n).Ok?;
  }

  lemma NameRead(im: Image, b: seq<Byte>, d: Stream, p: Pos, raw: seq<Byte>, q: Pos, n: nat)
    requires Holds(im, b, d.cursor) && d.size == |b| && q.offset == p.offset + ENTRY_SIZE
    requires q.offset + n <= |b| && raw == b[p.offset..q.offset]
    ensures ReadDir(im, Stand(d, p), ENTRY_SIZE) == Ok((raw, Stand(d, p.(offset := q.offset))))
    ensures ReadDir(im, Stand(d, q), n) == Ok((b[q.offset..q.offset + n], Stand(d, q.(offset := q.offset + n))))
  {
    ReadStand(im, b, d, p, ENTRY_SIZE);
    ReadStand(im, b, d, q, n);
  }

  lemma EntryRead(im: Image, b: seq<Byte>, d: Stream, from: nat, p: Pos)
    requires Holds(im, b, d.cursor) && d.size == |b| && 0 < p.header.count && from <= p.offset
    requires EntryIn(b, from, p).Yields?
    ensures EntryAt(im, from, Stand(d, p)) ==
            Ok((Some(EntryIn(b, from, p).entry), Stand(d, EntryIn(b, from, p).next)))
  {
    var q := Pos(p.offset + ENTRY_SIZE, p.header.(count := p.header.count - 1));
    var raw := b[p.offset..q.offset];
    NameRead(im, b, d, p, raw, q, NameSize(raw));
  }

  lemma NextIsStep(im: Image, b: seq<Byte>, d: Stream, p: Pos)
    requires Holds(im, b, d.cursor) && d.size == |b| && d.step(p) == StepIn(b, p) && !StepIn(b, p).Bad?
    ensures NextAt(im, Stand(d, p)) == Told(d, p)
  {
    if 0 < p.header.count {
      EntryRead(im, b, d, p.offset, p);
    } else if p.offset < |b| {
      ReadStand(im, b, d, p, HEADER_SIZE);
      var q := Pos(p.offset + HEADER_SIZE, HeaderOf(b[p.offset..p.offset + HEADER_SIZE]));
      assert NextFrom(im, p.offset, Stand(d, p)) == NextFrom(im, p.offset, Stand(d, q));
      EntryRead(im, b, d, p.offset, q);
    }
  }

  lemma StreamSteps(b: seq<Byte>, cursor: nat -> Cursor)
    ensures Steps(StreamOf(b, cursor))
  {
    var d := StreamOf(b, cursor);
    forall p: Pos
      ensures Moves(d.size, p, d.step(p))
      ensures p.header.count == 0 ==> d.step(p) == d.step(Pos(p.offset, Header(0, 0, 0)))
    {
      assert d.step(p) == StepIn(b, p);
      assert d.step(Pos(p.offset, Header(0, 0, 0))) == StepIn(b, Pos(p.offset, Header(0, 0, 0)));
    }
  }

  /** Wherever reads yield the bytes of a directory, sqfs_dir_next yields the entries they spell. */
  lemma BytesList(im: Image, b: seq<Byte>, cursor: nat -> Cursor)
    requires Holds(im, b, cursor)
    ensures Steps(StreamOf(b, cursor)) && Reads(On(im), StreamOf(b, cursor))
  {
    var d, src := StreamOf(b, cursor), On(im);
    StreamSteps(b, cursor);
    forall p: Pos | !d.step(p).Bad?
      ensures src.next(Stand(d, p)) == Told(d, p)
    {
      assert d.step(p) == StepIn(b, p);
      assert src.next(Stand(d, p)) == NextAt(im, Stand(d, p));
      NextIsStep(im, b, d, p);
    }
  }

  /** The cursors of the bytes from `base` on in a table. */
  ghost function CursorsFrom(im: Image, ps: seq<nat>, base: nat): nat -> Cursor
    requires IsTable(im, ps) && ps != []
  {
    (o: nat) => if base + o <= |Flat(im, ps)| then CursorAt(im, ps, base + o) else Cursor(0, 0)
  }

  /** A directory's stretch of the directory table, whichever metadata blocks it spans. */
  lemma TableHolds(im: Image, ps: seq<nat>, base: nat, size: nat)
    requires IsTable(im, ps) && ps != [] && base + size <= |Flat(im, ps)|
    ensures Holds(im, Flat(im, ps)[base..base + size], CursorsFrom(im, ps, base))
  {
    var b, cursor := Flat(im, ps)[base..base + size], CursorsFrom(im, ps, base);
    forall o: nat, n: nat | o + n <= |b|
      ensures ReadAt(im, cursor(o), n) == Ok((b[o..o + n], cursor(o + n)))
    {
      TableRead(im, ps, base, size, o, n);
    }
  }

  lemma TableRead(im: Image, ps: seq<nat>, base: nat, size: nat, o: nat, n: nat)
    requires IsTable(im, ps) && ps != [] && base + size <= |Flat(im, ps)| && o + n <= size
    ensures ReadAt(im, CursorsFrom(im, ps, base)(o), n) ==
            Ok((Flat(im, ps)[base..base + size][o..o + n], CursorsFrom(im, ps, base)(o + n)))
  {
    ReadFlat(im, ps, base + o, n);
    SubSlice(Flat(im, ps), base, size, o, o + n);
    assert base + (o + n) == (base + o) + n;
  }

  /** A header of such a directory is in the block its index entry should name, at the offset that
      sqfs_dir_ff_header computes. */
  lemma HeaderCursor(im: Image, ps: seq<nat>, base: nat, o: nat)
    requires IsTable(im, ps) && ps != [] && base + o < |Flat(im, ps)|
    ensures CursorsFrom(im, ps, base)(o) ==
            Cursor(ps[(base + o) / METADATA_SIZE], (base % METADATA_SIZE + o) % METADATA_SIZE)
  {
    var at: nat := base + o;
    assert CursorsFrom(im, ps, base)(o) == CursorAt(im, ps, at);
    SameOffset(base, o);
  }

  lemma SameOffset(base: nat, o: nat)
    ensures (base + o) % METADATA_SIZE == (base % METADATA_SIZE + o) % METADATA_SIZE
  {
  }
}
