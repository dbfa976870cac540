/** Extended attributes as they are written, and that reading them yields what was written. */
module XattrWriter {
  import opened Prelude
  import opened LittleEndian
  import opened Image
  import opened XattrSpec

  /** An attribute with its value inline, or at an offset of another metadata block of the attribute table. */
  datatype Stored = Inline(a: Attr) | Elsewhere(a: Attr, block: nat, offset: nat)

  predicate IsStored(s: Stored) {
    && s.a.kind < 3 && |s.a.name| < 0x1_0000 && |s.a.value| < TWO32
    && (s.Elsewhere? ==> s.block < TWO32 && s.offset < 0x1_0000)
  }

  predicate AreStored(ss: seq<Stored>) {
    ss == [] || (IsStored(ss[0]) && AreStored(ss[1..]))
  }

  // ---- Writing ----

  /** squashfs_xattr_val: a size and a value, or in its place the size of a reference and the reference. */
  function ValueBytes(value: seq<Byte>): seq<Byte> {
    Little(|value|, 4) + value
  }

  /** The place of a value: its metadata block, counted from the table's first, and its offset. */
  function RefBytes(block: nat, offset: nat): seq<Byte> {
    Little(8, 4) + Little(block * 0x1_0000 + offset, 8)
  }

  /** squashfs_xattr_entry and the name; bit 8 says that the value is elsewhere. */
  function StoredBytes(s: Stored): seq<Byte> {
    Little(s.a.kind + (if s.Elsewhere? then 0x100 else 0), 2) + Little(|s.a.name|, 2) + s.a.name +
    if s.Inline? then ValueBytes(s.a.value) else RefBytes(s.block, s.offset)
  }

  function AllBytes(ss: seq<Stored>): seq<Byte> {
    if ss == [] then [] else StoredBytes(ss[0]) + AllBytes(ss[1..])
  }

  function AttrsOf(ss: seq<Stored>): seq<Attr> {
    if ss == [] then [] else [ss[0].a] + AttrsOf(ss[1..])
  }

  // ---- Reading ----

  lemma HeadComesBack(s: Stored, b: seq<Byte>)
    requires IsStored(s) && b == Little(s.a.kind + (if s.Elsewhere? then 0x100 else 0), 2) + Little(|s.a.name|, 2)
    ensures HeadOf(b) == Head(s.a.kind, s.Elsewhere?, |s.a.name|)
  {
    Reads16(b, 0, s.a.kind + (if s.Elsewhere? then 0x100 else 0));
    Reads16(b, 2, |s.a.name|);
  }

  /** Kinds but the three are refused. */
  lemma OtherKinds(src: Source, base: nat, at: Cursor)
    requires src.head(at).Ok? && src.head(at).value.0.kind >= 3
    ensures AttrAt(src, base, at) == Err(Invalid)
  {
  }

  /** A reference leads to the block and the offset it was made of. */
  lemma RefComesBack(block: nat, offset: nat, base: nat)
    requires block < TWO32 && offset < 0x1_0000
    ensures CursorOf(U64(Little(block * 0x1_0000 + offset, 8), 0), base) == Cursor(base + block, offset)
  {
    RefOf64(block, offset, block * 0x1_0000 + offset, base);
  }

  lemma RefOf64(block: nat, offset: nat, ref: nat, base: nat)
    requires block < TWO32 && offset < 0x1_0000 && ref == block * 0x1_0000 + offset
    ensures CursorOf(U64(Little(ref, 8), 0), base) == Cursor(base + block, offset)
  {
    Alone64(ref, Little(ref, 8));
  }

  /** Bytes inside others. */
  lemma Inside(b: seq<Byte>, at: nat, x: seq<Byte>, y: seq<Byte>)
    requires at <= |b| && b[at..] == x + y
    ensures at + |x| <= |b| && b[at..at + |x|] == x && b[at + |x|..] == y
  {
    assert b[at..at + |x|] == b[at..][..|x|];
    assert b[at + |x|..] == b[at..][|x|..];
  }

  /** Reading the parts of an entry at `o` is reading them of the bytes `b`. */
  ghost predicate SpellsAt(src: Source, b: seq<Byte>, cursor: nat -> Cursor, o: nat, n: nat) {
    && (o + 4 <= |b| ==>
          && src.head(cursor(o)) == Ok((HeadOf(b[o..o + 4]), cursor(o + 4)))
          && src.size(cursor(o)) == Ok((U32(b[o..o + 4], 0), cursor(o + 4))))
    && (o + 8 <= |b| ==> src.ref(cursor(o)) == Ok((U64(b[o..o + 8], 0), cursor(o + 8))))
    && (o + n <= |b| ==> src.bytes(cursor(o), n) == Ok((b[o..o + n], cursor(o + n))))
  }

  ghost predicate Spells(src: Source, b: seq<Byte>, cursor: nat -> Cursor) {
    forall o: nat, n: nat {:trigger SpellsAt(src, b, cursor, o, n)} :: SpellsAt(src, b, cursor, o, n)
  }

  lemma HoldsSpells(im: Image, b: seq<Byte>, cursor: nat -> Cursor)
    requires Holds(im, b, cursor)
    ensures Spells(On(im), b, cursor)
  {
    forall o: nat, n: nat
      ensures SpellsAt(On(im), b, cursor, o, n)
    {
      assert o + 4 <= |b| ==> ReadAt(im, cursor(o), 4) == Ok((b[o..o + 4], cursor(o + 4)));
      assert o + 8 <= |b| ==> ReadAt(im, cursor(o), 8) == Ok((b[o..o + 8], cursor(o + 8)));
      assert o + n <= |b| ==> ReadAt(im, cursor(o), n) == Ok((b[o..o + n], cursor(o + n)));
    }
  }

  lemma HeadRead(src: Source, b: seq<Byte>, cursor: nat -> Cursor, at: nat, s: Stored, head: seq<Byte>, y: seq<Byte>)
    requires Spells(src, b, cursor) && at <= |b| && IsStored(s) && b[at..] == head + (s.a.name + y)
    requires head == Little(s.a.kind + (if s.Elsewhere? then 0x100 else 0), 2) + Little(|s.a.name|, 2)
    ensures src.head(cursor(at)) == Ok((Head(s.a.kind, s.Elsewhere?, |s.a.name|), cursor(at + 4)))
    ensures NameAt(src, cursor(at)) == Ok((s.a.name, cursor(at + 4 + |s.a.name|)))
    ensures at + 4 + |s.a.name| <= |b| && b[at + 4 + |s.a.name|..] == y
  {
    Inside(b, at, head, s.a.name + y);
    HeadComesBack(s, head);
    Inside(b, at + 4, s.a.name, y);
    assert SpellsAt(src, b, cursor, at, 4) && SpellsAt(src, b, cursor, at + 4, |s.a.name|);
  }

  lemma StoredParts(s: Stored, head: seq<Byte>, value: seq<Byte>, y: seq<Byte>)
    requires IsStored(s) && value == if s.Inline? then ValueBytes(s.a.value) else RefBytes(s.block, s.offset)
    requires head == Little(s.a.kind + (if s.Elsewhere? then 0x100 else 0), 2) + Little(|s.a.name|, 2)
    ensures StoredBytes(s) + y == head + (s.a.name + (value + y)) && |StoredBytes(s)| == 4 + |s.a.name| + |value|
  {
    SumOfThree(s.a.name, value, y);
    SumOfThree(head, s.a.name, value + y);
    SumOfThree(head + s.a.name, value, y);
  }

  /** What is behind the name: a size, and then as many bytes, or a reference. */
  lemma SizeRead(src: Source, b: seq<Byte>, cursor: nat -> Cursor, at: nat, n: nat, x: seq<Byte>, y: seq<Byte>)
    requires Spells(src, b, cursor) && at <= |b| && b[at..] == (Little(n, 4) + x) + y && n < TWO32
    ensures src.size(cursor(at)) == Ok((n, cursor(at + 4)))
    ensures src.bytes(cursor(at + 4), |x|) == Ok((x, cursor(at + 4 + |x|)))
    ensures |x| == 8 ==> src.ref(cursor(at + 4)) == Ok((U64(x, 0), cursor(at + 12)))
    ensures at + 4 + |x| <= |b| && b[at + 4..at + 4 + |x|] == x && b[at + 4 + |x|..] == y
  {
    SumOfThree(Little(n, 4), x, y);
    Inside(b, at, Little(n, 4), x + y);
    Alone32(n, Little(n, 4));
    Inside(b, at + 4, x, y);
    assert SpellsAt(src, b, cursor, at, 4) && SpellsAt(src, b, cursor, at + 4, |x|);
  }

  /** A value kept elsewhere is there. */
  ghost predicate IsThere(src: Source, base: nat, s: Stored) {
    s.Elsewhere? ==>
      var at := src.size(Cursor(base + s.block, s.offset));
      && at.Ok? && at.value.0 == |s.a.value|
      && src.bytes(at.value.1, |s.a.value|).Ok? && src.bytes(at.value.1, |s.a.value|).value.0 == s.a.value
  }

  lemma InlineRead(src: Source, base: nat, b: seq<Byte>, cursor: nat -> Cursor, at: nat, mid: nat, s: Stored,
                   y: seq<Byte>)
    requires Spells(src, b, cursor) && IsStored(s) && s.Inline? && mid <= |b| && b[mid..] == ValueBytes(s.a.value) + y
    requires NameAt(src, cursor(at)) == Ok((s.a.name, cursor(mid)))
    ensures var end := mid + |ValueBytes(s.a.value)|;
            && ValueAt(src, base, cursor(at), false) == Ok((s.a.value, cursor(end)))
            && NextAt(src, base, cursor(at), false) == Ok(cursor(end))
            && end <= |b| && b[end..] == y
  {
    SizeRead(src, b, cursor, mid, |s.a.value|, s.a.value, y);
  }

  lemma RefRead(src: Source, base: nat, b: seq<Byte>, cursor: nat -> Cursor, at: nat, mid: nat, s: Stored, n: nat,
                x: seq<Byte>, y: seq<Byte>)
    requires Spells(src, b, cursor) && s.Elsewhere? && IsThere(src, base, s)
    requires mid <= |b| && b[mid..] == (Little(n, 4) + x) + y && n < TWO32
    requires |x| == 8 && CursorOf(U64(x, 0), base) == Cursor(base + s.block, s.offset)
    requires NameAt(src, cursor(at)) == Ok((s.a.name, cursor(mid)))
    ensures ValueAt(src, base, cursor(at), true).Ok? && ValueAt(src, base, cursor(at), true).value.0 == s.a.value
    ensures NextAt(src, base, cursor(at), true) == Ok(cursor(mid + 12))
    ensures mid + 12 <= |b| && b[mid + 12..] == y
  {
    SizeRead(src, b, cursor, mid, n, x, y);
  }

  lemma ElsewhereRead(src: Source, base: nat, b: seq<Byte>, cursor: nat -> Cursor, at: nat, mid: nat, s: Stored,
                      y: seq<Byte>)
    requires Spells(src, b, cursor) && IsStored(s) && s.Elsewhere? && IsThere(src, base, s)
    requires mid <= |b| && b[mid..] == RefBytes(s.block, s.offset) + y
    requires NameAt(src, cursor(at)) == Ok((s.a.name, cursor(mid)))
    ensures ValueAt(src, base, cursor(at), true).Ok? && ValueAt(src, base, cursor(at), true).value.0 == s.a.value
    ensures NextAt(src, base, cursor(at), true) == Ok(cursor(mid + 12))
    ensures mid + 12 <= |b| && b[mid + 12..] == y
  {
    RefComesBack(s.block, s.offset, base);
    RefRead(src, base, b, cursor, at, mid, s, 8, Little(s.block * 0x1_0000 + s.offset, 8), y);
  }

  /** An attribute of its parts. */
  lemma AttrIs(src: Source, base: nat, at: Cursor, s: Stored, head: Cursor, name: Cursor, value: Cursor, next: Cursor)
    requires IsStored(s) && src.head(at) == Ok((Head(s.a.kind, s.Elsewhere?, |s.a.name|), head))
    requires NameAt(src, at) == Ok((s.a.name, name))
    requires ValueAt(src, base, at, s.Elsewhere?) == Ok((s.a.value, value))
    requires NextAt(src, base, at, s.Elsewhere?) == Ok(next)
    ensures AttrAt(src, base, at) == Ok((s.a, next))
  {
  }

  lemma ListCons(src: Source, base: nat, at: Cursor, next: Cursor, a: Attr, rest: seq<Attr>, n: nat)
    requires AttrAt(src, base, at) == Ok((a, next)) && ListAt(src, base, next, n) == Ok(rest)
    ensures ListAt(src, base, at, n + 1) == Ok([a] + rest)
  {
  }

  lemma BehindRead(src: Source, base: nat, b: seq<Byte>, cursor: nat -> Cursor, at: nat, mid: nat, s: Stored,
                   value: seq<Byte>, y: seq<Byte>)
    returns (c: Cursor)
    requires Spells(src, b, cursor) && IsStored(s) && IsThere(src, base, s)
    requires value == if s.Inline? then ValueBytes(s.a.value) else RefBytes(s.block, s.offset)
    requires mid <= |b| && b[mid..] == value + y
    requires NameAt(src, cursor(at)) == Ok((s.a.name, cursor(mid)))
    ensures ValueAt(src, base, cursor(at), s.Elsewhere?) == Ok((s.a.value, c))
    ensures NextAt(src, base, cursor(at), s.Elsewhere?) == Ok(cursor(mid + |value|))
    ensures mid + |value| <= |b| && b[mid + |value|..] == y
  {
    if s.Inline? {
      InlineRead(src, base, b, cursor, at, mid, s, y);
      c := cursor(mid + |value|);
    } else {
      ElsewhereRead(src, base, b, cursor, at, mid, s, y);
      c := ValueAt(src, base, cursor(at), true).value.1;
    }
  }

  /** One attribute is read from its bytes. */
  lemma AttrRead(src: Source, base: nat, b: seq<Byte>, cursor: nat -> Cursor, at: nat, s: Stored, y: seq<Byte>)
    requires Spells(src, b, cursor) && at <= |b| && IsStored(s) && IsThere(src, base, s)
    requires b[at..] == StoredBytes(s) + y
    ensures AttrAt(src, base, cursor(at)) == Ok((s.a, cursor(at + |StoredBytes(s)|)))
    ensures at + |StoredBytes(s)| <= |b| && b[at + |StoredBytes(s)|..] == y
  {
    var head := Little(s.a.kind + (if s.Elsewhere? then 0x100 else 0), 2) + Little(|s.a.name|, 2);
    var value := if s.Inline? then ValueBytes(s.a.value) else RefBytes(s.block, s.offset);
    var mid: nat := at + 4 + |s.a.name|;
    StoredParts(s, head, value, y);
    HeadRead(src, b, cursor, at, s, head, value + y);
    var c := BehindRead(src, base, b, cursor, at, mid, s, value, y);
    AttrIs(src, base, cursor(at), s, cursor(at + 4), cursor(mid), c, cursor(mid + |value|));
  }

  ghost predicate AllThere(src: Source, base: nat, ss: seq<Stored>) {
    ss == [] || (IsThere(src, base, ss[0]) && AllThere(src, base, ss[1..]))
  }

  lemma AttrThenList(src: Source, base: nat, b: seq<Byte>, cursor: nat -> Cursor, at: nat, to: nat, s: Stored,
                     y: seq<Byte>, rest: seq<Attr>, n: nat)
    requires Spells(src, b, cursor) && at <= |b| && IsStored(s) && IsThere(src, base, s)
    requires b[at..] == StoredBytes(s) + y && to == at + |StoredBytes(s)|
    requires ListAt(src, base, cursor(to), n) == Ok(rest)
    ensures ListAt(src, base, cursor(at), n + 1) == Ok([s.a] + rest)
  {
    AttrRead(src, base, b, cursor, at, s, y);
    ListCons(src, base, cursor(at), cursor(to), s.a, rest, n);
  }

  lemma {:induction false} AttrsListed(src: Source, base: nat, b: seq<Byte>, cursor: nat -> Cursor, at: nat,
                                       ss: seq<Stored>)
    requires Spells(src, b, cursor) && AreStored(ss) && AllThere(src, base, ss)
    requires at <= |b| && b[at..] == AllBytes(ss)
    ensures ListAt(src, base, cursor(at), |ss|) == Ok(AttrsOf(ss))
    decreases |ss|
  {
    if ss != [] {
      var to: nat, y := at + |StoredBytes(ss[0])|, AllBytes(ss[1..]);
      Inside(b, at, StoredBytes(ss[0]), y);
      AttrsListed(src, base, b, cursor, to, ss[1..]);
      AttrThenList(src, base, b, cursor, at, to, ss[0], y, AttrsOf(ss[1..]), |ss| - 1);
    }
  }

  /** Whatever attributes are written, with their values inline or elsewhere, exactly they are listed. */
  lemma WrittenIsListed(im: Image, base: nat, cursor: nat -> Cursor, ss: seq<Stored>)
    requires AreStored(ss) && AllThere(On(im), base, ss) && Holds(im, AllBytes(ss), cursor)
    ensures ListAt(On(im), base, cursor(0), |ss|) == Ok(AttrsOf(ss))
  {
    HoldsSpells(im, AllBytes(ss), cursor);
    AttrsListed(On(im), base, AllBytes(ss), cursor, 0, ss);
  }
}
