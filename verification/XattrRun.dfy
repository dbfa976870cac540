/** Opening the attributes of an inode, and that what callers see does not depend on what they ask for.
    A clause `P() == true` is proved as one fact, and not conjunct by conjunct, which keeps the proofs quick. */
module XattrRun {
  import opened Prelude
  import opened LittleEndian
  import opened Image
  import opened Blocks
  import opened Fs
  import opened XattrSpec
  import opened Xattr

  const XATTR_ID_SIZE := 16
  const INVALID_XATTR := 0xffff_ffff

  /** The attribute tables of the file system: how many ids there are, where their blocks are, and where
      the entries start. */
  datatype XattrTable = XattrTable(ids: nat, blocks: seq<nat>, start: nat)

  /** The first entry of an inode's attributes, and how many there are. */
  function OpenAt(im: Image, t: XattrTable, idx: nat): Result<(Cursor, nat)> {
    if t.ids == 0 || idx == INVALID_XATTR then Ok((Cursor(t.start, 0), 0))
    else
      match TableEntry(im, t.blocks, XATTR_ID_SIZE, idx)
      case Err(e) => Err(Invalid)
      case Ok(b) => Ok((CursorOf(U64(b, 0), t.start), U32(b, 8)))
  }

  /** squashfs_xattr_id, as it is written: an inode's attributes begin in the metadata block, and at the offset, that
      the id names. */
  lemma IdComesBack(im: Image, t: XattrTable, idx: nat, block: nat, offset: nat, ref: nat, count: nat, size: nat)
    requires t.ids != 0 && idx < TWO32 - 1 && count < TWO32
    requires block < TWO32 && offset < 0x1_0000 && ref == block * 0x1_0000 + offset
    requires TableEntry(im, t.blocks, 16, idx) == Ok(Little(ref, 8) + Little(count, 4) + Little(size, 4))
    ensures OpenAt(im, t, idx) == Ok((Cursor(t.start + block, offset), count))
  {
    IdParts(ref, count, size);
    IdOf(im, t, idx, Little(ref, 8) + Little(count, 4) + Little(size, 4), ref, block, offset);
  }

  lemma IdOf(im: Image, t: XattrTable, idx: nat, b: seq<Byte>, ref: nat, block: nat, offset: nat)
    requires t.ids != 0 && idx < TWO32 - 1 && offset < 0x1_0000 && ref == block * 0x1_0000 + offset
    requires TableEntry(im, t.blocks, 16, idx) == Ok(b) && |b| == 16 && U64(b, 0) == ref
    ensures OpenAt(im, t, idx) == Ok((Cursor(t.start + block, offset), U32(b, 8)))
  {
  }

  /** The number 2^32 - 1 stands for no attributes. */
  lemma NoId(im: Image, t: XattrTable)
    ensures OpenAt(im, t, 0xffff_ffff) == Ok((Cursor(t.start, 0), 0))
  {
  }

  lemma IdParts(ref: nat, count: nat, size: nat)
    requires ref < TWO32 * TWO32 && count < TWO32
    ensures var b := Little(ref, 8) + Little(count, 4) + Little(size, 4);
            U64(b, 0) == ref && U32(b, 8) == count
  {
    var b := Little(ref, 8) + Little(count, 4) + Little(size, 4);
    Reads64(b, 0, ref);
    Reads32(b, 8, count);
  }

  /** sqfs_xattr_open. */
  method Open(md: BlockCache, ghost im: Image, ghost src: Source, t: XattrTable, idx: nat) returns (r: Result<Xattr>)
    requires md.Valid() && Serves(md, im) && Means(src, im) && 0 < t.start
    modifies md.Repr()
    ensures md.Valid() && md.held == old(md.held)
    ensures r.Ok? ==> fresh(r.value) && r.value.Valid() == true && r.value.md == md
    ensures r.Ok? ==> r.value.src == src && r.value.base == t.start && r.value.at == None
    ensures r.Ok? ==> OpenAt(im, t, idx) == Ok((r.value.cNext, r.value.remain)) && md.failed == old(md.failed)
    ensures r.Err? ==> r == Err(AssertFailed) || OpenAt(im, t, idx) == Err(r.error)
  {
    var start, count: nat := Cursor(t.start, 0), 0;
    if t.ids != 0 && idx != INVALID_XATTR {
      var got := TableGet(md, im, t.blocks, XATTR_ID_SIZE, idx);
      if got.Err? {
        return Err(if got.error == AssertFailed then AssertFailed else Invalid);
      }
      start, count := CursorOf(U64(got.value, 0), t.start), U32(got.value, 8);
    }
    var x := new Xattr(md, im, src, t.start, start, count);
    return Ok(x);
  }

  // ---- Any calls, in any order ----

  datatype Call = CallName(copy: bool, prefix: bool) | CallSize | CallValue(copy: bool)

  datatype Seen = SeenName(name: seq<Byte>) | SeenSize(size: nat) | SeenValue(value: seq<Byte>)

  /** What a call should show of an attribute. */
  function Ideal(a: Attr, call: Call): Seen {
    match call
    case CallName(copy, prefix) =>
      SeenName(if !copy then [] else (if prefix then Ascii(PrefixName(a.kind)) else []) + a.name)
    case CallSize => SeenSize(|a.value|)
    case CallValue(copy) => SeenValue(if copy then a.value else [])
  }

  /** The entry at `at` is `a`, and the next one starts at `next`, whether it is read or skipped. */
  ghost predicate Holds(src: Source, base: nat, at: Cursor, a: Attr, next: Cursor) {
    AttrAt(src, base, at) == Ok((a, next)) && NextAt(src, base, at, false) == Ok(next)
  }

  /** The entries from starts[0] on are `attrs`. */
  ghost predicate Lists(src: Source, base: nat, starts: seq<Cursor>, attrs: seq<Attr>) {
    |starts| == |attrs| + 1 &&
    forall i | 0 <= i < |attrs| :: Holds(src, base, starts[i], attrs[i], starts[i + 1])
  }

  lemma {:induction false} ListsIsList(src: Source, base: nat, starts: seq<Cursor>, attrs: seq<Attr>)
    requires Lists(src, base, starts, attrs)
    ensures ListAt(src, base, starts[0], |attrs|) == Ok(attrs)
    decreases |attrs|
  {
    if attrs != [] {
      assert Holds(src, base, starts[0], attrs[0], starts[1]);
      ListsIsList(src, base, starts[1..], attrs[1..]);
      assert [attrs[0]] + attrs[1..] == attrs;
    }
  }

  /** Where the entries begin that are parsed from `at` on, and where the last one ends. */
  function StartsOf(src: Source, base: nat, at: Cursor, count: nat): (starts: seq<Cursor>)
    requires ListAt(src, base, at, count).Ok?
    ensures |starts| == count + 1 && starts[0] == at
    decreases count
  {
    if count == 0 then [at] else [at] + StartsOf(src, base, AttrAt(src, base, at).value.1, count - 1)
  }

  /** Each value that is kept elsewhere has, inline, the size of the reference. */
  ghost predicate AllReferences(src: Source, starts: seq<Cursor>) {
    forall i | 0 <= i < |starts| - 1 :: IsReference(src, starts[i])
  }

  ghost predicate IsReference(src: Source, at: Cursor) {
    && src.head(at).Ok? && InlineAt(src, at).Ok?
    && (src.head(at).value.0.ool ==> InlineAt(src, at).value.0 == REF_SIZE)
  }

  lemma HoldsIff(im: Image, base: nat, at: Cursor)
    requires AttrAt(On(im), base, at).Ok?
    ensures var (a, next) := AttrAt(On(im), base, at).value;
            Holds(On(im), base, at, a, next) <==> IsReference(On(im), at)
  {
    SkipIsNext(im, base, at);
  }

  lemma {:induction false} ParsedHolds(src: Source, base: nat, at: Cursor, attrs: seq<Attr>, i: nat)
    requires ListAt(src, base, at, |attrs|) == Ok(attrs) && i < |attrs|
    ensures var starts := StartsOf(src, base, at, |attrs|);
            AttrAt(src, base, starts[i]) == Ok((attrs[i], starts[i + 1]))
    decreases |attrs|
  {
    if i > 0 {
      ParsedHolds(src, base, AttrAt(src, base, at).value.1, attrs[1..], i - 1);
    }
  }

  ghost predicate HoldsIffReference(src: Source, base: nat, starts: seq<Cursor>, attrs: seq<Attr>, i: nat)
    requires i < |attrs| && |starts| == |attrs| + 1
  {
    Holds(src, base, starts[i], attrs[i], starts[i + 1]) <==> IsReference(src, starts[i])
  }

  lemma ListsWhere(src: Source, base: nat, starts: seq<Cursor>, attrs: seq<Attr>)
    requires |starts| == |attrs| + 1 && forall i: nat | i < |attrs| :: HoldsIffReference(src, base, starts, attrs, i)
    ensures Lists(src, base, starts, attrs) <==> AllReferences(src, starts)
  {
    if Lists(src, base, starts, attrs) {
      forall i | 0 <= i < |attrs|
        ensures IsReference(src, starts[i])
      {
        assert HoldsIffReference(src, base, starts, attrs, i);
      }
    } else if AllReferences(src, starts) {
      forall i | 0 <= i < |attrs|
        ensures Holds(src, base, starts[i], attrs[i], starts[i + 1])
      {
        assert HoldsIffReference(src, base, starts, attrs, i) && IsReference(src, starts[i]);
      }
    }
  }

  /** An inode's attributes that can be parsed are listed, whatever is skipped, exactly if each value that is kept
      elsewhere has, inline, the size of the reference. */
  lemma ListsIff(im: Image, base: nat, at: Cursor, attrs: seq<Attr>)
    requires ListAt(On(im), base, at, |attrs|) == Ok(attrs)
    ensures var starts := StartsOf(On(im), base, at, |attrs|);
            Lists(On(im), base, starts, attrs) <==> AllReferences(On(im), starts)
  {
    var starts := StartsOf(On(im), base, at, |attrs|);
    forall i: nat | i < |attrs|
      ensures HoldsIffReference(On(im), base, starts, attrs, i)
    {
      ParsedHolds(On(im), base, at, attrs, i);
      HoldsIff(im, base, starts[i]);
    }
    ListsWhere(On(im), base, starts, attrs);
  }

  /** The iterator is at entry `a`, and will go on at `next`. */
  ghost predicate At(x: Xattr, a: Attr, next: Cursor)
    reads x, x.md.Repr()
  {
    x.Valid() && x.at.Some? && x.ool == x.entry.ool && Holds(x.src, x.base, x.at.value, a, next)
  }

  /** From an entry, or from the beginning, the next one is taken to start at `next`. */
  ghost predicate Before(x: Xattr, next: Cursor)
    reads x, x.md.Repr()
  {
    x.Valid() && x.Upcoming() == Ok(next)
  }

  /** Whatever has been asked about an entry, the iterator goes on to the one behind it. */
  lemma AtIsBefore(x: Xattr, a: Attr, next: Cursor)
    requires At(x, a, next)
    ensures Before(x, next)
  {
  }

  /** Any accessor, whatever was called before it, shows the attribute. */
  method Ask(x: Xattr, call: Call, ghost a: Attr, ghost next: Cursor) returns (r: Result<Seen>)
    requires At(x, a, next)
    modifies x`cVsize, x`hasVsize, x`cVal, x`hasVal, x`cNext, x`hasNext, x`vsize, x.md.Repr()
    ensures x.md.Valid() && x.md.held == old(x.md.held)
    ensures r.Ok? ==> At(x, a, next) == true && r.value == Ideal(a, call) && x.md.failed == old(x.md.failed)
    ensures r.Err? ==> r == Err(AssertFailed) && old(x.md.failed)
  {
    match call
    case CallName(copy, prefix) =>
      PrefixSpelled(a.kind);
      var name := x.Name(copy, prefix);
      return if name.Ok? then Ok(SeenName(name.value)) else Err(name.error);
    case CallSize =>
      ValueHasSize(x.im, x.src, x.base, x.at.value, x.ool);
      var size := x.ValueSize();
      return if size.Ok? then Ok(SeenSize(size.value)) else Err(size.error);
    case CallValue(copy) =>
      var value := x.Value(copy);
      return if value.Ok? then Ok(SeenValue(value.value)) else Err(value.error);
  }

  lemma ValueHasSize(im: Image, src: Source, base: nat, at: Cursor, ool: bool)
    requires Means(src, im) && ValueAt(src, base, at, ool).Ok?
    ensures ValAt(src, base, at, ool).Ok?
    ensures |ValueAt(src, base, at, ool).value.0| == ValAt(src, base, at, ool).value.0
  {
    var (n, c) := ValAt(src, base, at, ool).value;
    assert src.bytes(c, n) == ReadAt(im, c, n);
  }

  /** What was seen of an attribute is what each call should show. */
  ghost predicate Faithful(seen: seq<Seen>, calls: seq<Call>, a: Attr) {
    |seen| == |calls| && forall j | 0 <= j < |calls| :: seen[j] == Ideal(a, calls[j])
  }

  method AskAll(x: Xattr, calls: seq<Call>, ghost a: Attr, ghost next: Cursor) returns (r: Result<seq<Seen>>)
    requires At(x, a, next)
    modifies x`cVsize, x`hasVsize, x`cVal, x`hasVal, x`cNext, x`hasNext, x`vsize, x.md.Repr()
    ensures x.md.Valid() && x.md.held == old(x.md.held)
    ensures r.Ok? ==> At(x, a, next) == true && Faithful(r.value, calls, a) && x.md.failed == old(x.md.failed)
    ensures r.Err? ==> r == Err(AssertFailed) && old(x.md.failed)
  {
    var seen: seq<Seen> := [];
    for j := 0 to |calls|
      invariant At(x, a, next) && x.md.held == old(x.md.held) && x.md.failed == old(x.md.failed)
      invariant Faithful(seen, calls[..j], a)
    {
      var one := Ask(x, calls[j], a, next);
      if one.Err? {
        return Err(one.error);
      }
      seen := seen + [one.value];
    }
    assert calls[..|calls|] == calls;
    return Ok(seen);
  }

  /** sqfs_xattr_read from one entry to the next. */
  method Step(x: Xattr, ghost start: Cursor, ghost a: Attr, ghost next: Cursor) returns (r: Result<()>)
    requires Before(x, start) && 0 < x.remain && Holds(x.src, x.base, start, a, next)
    modifies x, x.md.Repr()
    ensures x.md.Valid() && x.md.held == old(x.md.held)
    ensures r.Ok? ==> At(x, a, next) == true && x.remain == old(x.remain) - 1 && x.md.failed == old(x.md.failed)
    ensures r.Err? ==> r == Err(AssertFailed) && old(x.md.failed)
  {
    r := x.Read();
  }

  /** The attributes of an inode, each asked about with any calls in any order, skipped or repeated: what
      is seen is what one eager parse says. */
  method Visit(x: Xattr, plan: seq<seq<Call>>, ghost starts: seq<Cursor>, ghost attrs: seq<Attr>)
    returns (r: Result<seq<seq<Seen>>>)
    requires Lists(x.src, x.base, starts, attrs) && |plan| == |attrs|
    requires Before(x, starts[0]) && x.remain == |attrs|
    modifies x, x.md.Repr()
    ensures x.md.Valid() && x.md.held == old(x.md.held)
    ensures ListAt(x.src, x.base, starts[0], |attrs|) == Ok(attrs)
    ensures r.Ok? ==> |r.value| == |plan| && forall i | 0 <= i < |plan| :: Faithful(r.value[i], plan[i], attrs[i])
    ensures r.Err? ==> r == Err(AssertFailed) && old(x.md.failed)
  {
    ListsIsList(x.src, x.base, starts, attrs);
    r := Ok([]);
    for i := 0 to |plan|
      invariant Before(x, starts[i]) && x.remain == |attrs| - i
      invariant x.md.held == old(x.md.held) && x.md.failed == old(x.md.failed)
      invariant r.Ok? && |r.value| == i && forall k | 0 <= k < i :: Faithful(r.value[k], plan[k], attrs[k])
    {
      assert Holds(x.src, x.base, starts[i], attrs[i], starts[i + 1]);
      var step := Step(x, starts[i], attrs[i], starts[i + 1]);
      if step.Err? {
        return Err(step.error);
      }
      var seen := AskAll(x, plan[i], attrs[i], starts[i + 1]);
      if seen.Err? {
        return Err(seen.error);
      }
      AtIsBefore(x, attrs[i], starts[i + 1]);
      r := Ok(r.value + [seen.value]);
    }
  }
}
