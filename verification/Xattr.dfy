/** sqfs_xattr: an iterator whose accessors find their cursors when they are asked for. */
module Xattr {
  import opened Prelude
  import opened Image
  import opened Blocks
  import opened Fs
  import opened XattrSpec

  /** The prefixes of the three kinds of attributes: "user.", "trusted." and "security.". */
  function PrefixOf(kind: nat): seq<Byte> {
    match kind
    case 0 => [117, 115, 101, 114, 46]
    case 1 => [116, 114, 117, 115, 116, 101, 100, 46]
    case _ => [115, 101, 99, 117, 114, 105, 116, 121, 46]
  }

  /** What sqfs_xattr_name writes. */
  function Shown(kind: nat, name: seq<Byte>, copy: bool, prefix: bool): seq<Byte> {
    if !copy then [] else if prefix then PrefixOf(kind) + name else name
  }

  function Ascii(s: string): seq<Byte> {
    seq<Byte>(|s|, k requires 0 <= k < |s| => s[k] as int % 0x80)
  }

  /** The names of the three kinds, as callers know them. */
  function PrefixName(kind: nat): string {
    if kind == 0 then "user." else if kind == 1 then "trusted." else "security."
  }

  lemma PrefixSpelled(kind: nat)
    ensures PrefixOf(kind) == Ascii(PrefixName(kind))
  {
  }

  // ---- Single reads ----

  method ReadHead(md: BlockCache, ghost im: Image, ghost src: Source, cur: Cursor) returns (r: Result<(Head, Cursor)>)
    requires md.Valid() && Serves(md, im) && Means(src, im)
    modifies md.Repr()
    ensures md.Valid() && md.held == old(md.held)
    ensures r == Err(AssertFailed) || r == src.head(cur)
    ensures r.Ok? ==> md.failed == old(md.failed) && cur.block <= r.value.1.block
    ensures !old(md.failed) && 0 < cur.block ==> r != Err(AssertFailed)
  {
    assert src.head(cur) == HeadAt(im, cur);
    var got := MdRead(md, im, cur, HEAD_SIZE, true);
    match got
    case Err(e) => r := Err(e);
    case Ok((b, next)) => r := Ok((HeadOf(b), next));
  }

  method ReadSize(md: BlockCache, ghost im: Image, ghost src: Source, cur: Cursor) returns (r: Result<(nat, Cursor)>)
    requires md.Valid() && Serves(md, im) && Means(src, im)
    modifies md.Repr()
    ensures md.Valid() && md.held == old(md.held)
    ensures r == Err(AssertFailed) || r == src.size(cur)
    ensures r.Ok? ==> md.failed == old(md.failed) && cur.block <= r.value.1.block
    ensures !old(md.failed) && 0 < cur.block ==> r != Err(AssertFailed)
  {
    assert src.size(cur) == SizeAt(im, cur);
    var got := MdRead(md, im, cur, VAL_SIZE, true);
    match got
    case Err(e) => r := Err(e);
    case Ok((b, next)) => r := Ok((U32(b, 0), next));
  }

  method ReadRef(md: BlockCache, ghost im: Image, ghost src: Source, cur: Cursor) returns (r: Result<(nat, Cursor)>)
    requires md.Valid() && Serves(md, im) && Means(src, im)
    modifies md.Repr()
    ensures md.Valid() && md.held == old(md.held)
    ensures r == Err(AssertFailed) || r == src.ref(cur)
    ensures r.Ok? ==> md.failed == old(md.failed) && cur.block <= r.value.1.block
    ensures !old(md.failed) && 0 < cur.block ==> r != Err(AssertFailed)
  {
    assert src.ref(cur) == RefAt(im, cur);
    var got := MdRead(md, im, cur, REF_SIZE, true);
    match got
    case Err(e) => r := Err(e);
    case Ok((b, next)) => r := Ok((U64(b, 0), next));
  }

  method ReadBytes(md: BlockCache, ghost im: Image, ghost src: Source, cur: Cursor, n: nat, copy: bool)
    returns (r: Result<(seq<Byte>, Cursor)>)
    requires md.Valid() && Serves(md, im) && Means(src, im)
    modifies md.Repr()
    ensures md.Valid() && md.held == old(md.held)
    ensures r == Err(AssertFailed) || r == Copied(src.bytes(cur, n), copy)
    ensures r.Ok? ==> md.failed == old(md.failed) && cur.block <= r.value.1.block
    ensures !old(md.failed) && 0 < cur.block ==> r != Err(AssertFailed)
  {
    assert src.bytes(cur, n) == ReadAt(im, cur, n);
    r := MdRead(md, im, cur, n, copy);
  }

  // ---- The iterator ----

  class Xattr {
    const md: BlockCache
    ghost const im: Image
    ghost const src: Source
    const base: nat

    var remain: nat
    var entry: Head
    var ool: bool
    var vsize: nat
    var cName: Cursor
    var cVsize: Cursor
    var cVal: Cursor
    var cNext: Cursor
    // The set `cursors`: which of the last three are known.
    var hasVsize: bool
    var hasVal: bool
    var hasNext: bool

    /** Where the current entry starts, once there is one. */
    ghost var at: Option<Cursor>

    /** Every known cursor is where the image has that part of the entry, taken as inline or not as
        `ool` says. */
    ghost predicate Known()
      reads this
    {
      && (at.None? ==> hasNext && !hasVal && !hasVsize)
      && (at.Some? ==>
            && src.head(at.value) == Ok((entry, cName)) && 0 < cName.block
            && (hasVsize ==> NameAt(src, at.value).Ok? && cVsize == NameAt(src, at.value).value.1 && 0 < cVsize.block)
            && (hasVal ==> ValAt(src, base, at.value, ool) == Ok((vsize, cVal)) && 0 < cVal.block)
            && (hasVal && ool ==> hasNext)
            && (hasNext ==> NextAt(src, base, at.value, ool) == Ok(cNext)))
      && (hasNext ==> 0 < cNext.block)
    }

    ghost predicate Valid()
      reads this, md.Repr()
    {
      && md.Valid() && Serves(md, im) && Means(src, im) && this !in md.Repr() && 0 < base
      && Known()
    }

    /** sqfs_xattr_open, for an inode whose attributes are the `count` entries at `start`. */
    constructor (md: BlockCache, ghost im: Image, ghost src: Source, base: nat, start: Cursor, count: nat)
      requires md.Valid() && Serves(md, im) && Means(src, im) && 0 < base && 0 < start.block
      ensures Valid() && this.md == md && this.im == im && this.src == src && this.base == base
      ensures remain == count && at == None && cNext == start
    {
      this.md, this.im, this.src, this.base := md, im, src, base;
      remain, cNext := count, start;
      hasVsize, hasVal, hasNext := false, false, true;
      at := None;
      entry, ool, vsize := Head(0, false, 0), false, 0;
      cName, cVsize, cVal := start, start, start;
    }

    /** sqfs_xattr_name. */
    method Name(copy: bool, prefix: bool) returns (r: Result<seq<Byte>>)
      requires Valid() && at.Some?
      modifies `cVsize, `hasVsize, md.Repr()
      ensures Valid() && md.held == old(md.held)
      ensures r.Ok? ==> hasVsize && NameAt(src, at.value).Ok?
      ensures r.Ok? ==> r.value == Shown(entry.kind, NameAt(src, at.value).value.0, copy, prefix)
      ensures r.Ok? ==> md.failed == old(md.failed)
      ensures r.Err? ==> (r == Err(AssertFailed) && old(md.failed)) || NameAt(src, at.value) == Err(r.error)
    {
      var got := ReadBytes(md, im, src, cName, entry.size, copy);
      if got.Err? {
        return Err(got.error);
      }
      cVsize := got.value.1;
      hasVsize := true;
      return Ok(if copy && prefix then PrefixOf(entry.kind) + got.value.0 else got.value.0);
    }

    /** The first part of sqfs_xattr_value_size: the size kept inline, behind the name. */
    method InlineSize() returns (r: Result<(nat, Cursor)>)
      requires Valid() && at.Some?
      modifies `cVsize, `hasVsize, md.Repr()
      ensures md.Valid() && md.held == old(md.held)
      ensures r.Ok? ==> Valid() && md.failed == old(md.failed)
      ensures r.Ok? ==> InlineAt(src, at.value) == r && 0 < r.value.1.block
      ensures r.Err? ==> (r == Err(AssertFailed) && old(md.failed)) || InlineAt(src, at.value) == Err(r.error)
    {
      if !hasVsize {
        var named := Name(false, false);
        if named.Err? {
          return Err(named.error);
        }
      }
      r := ReadSize(md, im, src, cVsize);
    }

    /** The part of sqfs_xattr_value_size for a value kept elsewhere: the reference under the cursor, and
        the size it leads to. */
    method Follow() returns (r: Result<()>)
      requires md.Valid() && Serves(md, im) && Means(src, im) && this !in md.Repr() && 0 < base && 0 < cVal.block
      modifies `cVal, `cNext, `hasNext, `vsize, md.Repr()
      ensures md.Valid() && md.held == old(md.held)
      ensures r.Ok? ==> md.failed == old(md.failed) && 0 < cNext.block && 0 < cVal.block && hasNext
      ensures r.Ok? ==> src.ref(old(cVal)).Ok? && cNext == src.ref(old(cVal)).value.1
      ensures r.Ok? ==> src.size(CursorOf(src.ref(old(cVal)).value.0, base)) == Ok((vsize, cVal))
      ensures r.Err? ==>
                || (r == Err(AssertFailed) && old(md.failed))
                || src.ref(old(cVal)) == Err(r.error)
                || (src.ref(old(cVal)).Ok? && src.size(CursorOf(src.ref(old(cVal)).value.0, base)) == Err(r.error))
    {
      var ref := ReadRef(md, im, src, cVal);
      if ref.Err? {
        return Err(ref.error);
      }
      cNext := ref.value.1;
      hasNext := true;
      cVal := CursorOf(ref.value.0, base);
      var got := ReadSize(md, im, src, cVal);
      if got.Err? {
        return Err(got.error);
      }
      vsize, cVal := got.value.0, got.value.1;
      return Ok(());
    }

    /** sqfs_xattr_value_size. */
    method ValueSize() returns (r: Result<nat>)
      requires Valid() && at.Some?
      modifies `cVsize, `hasVsize, `cVal, `hasVal, `cNext, `hasNext, `vsize, md.Repr()
      ensures md.Valid() && md.held == old(md.held)
      ensures r.Ok? ==> Valid() && md.failed == old(md.failed)
      ensures r.Ok? ==> hasVal && r.value == vsize
      ensures r.Err? ==> (r == Err(AssertFailed) && old(md.failed)) || ValAt(src, base, at.value, ool) == Err(r.error)
    {
      var got := InlineSize();
      if got.Err? {
        return Err(got.error);
      }
      vsize, cVal := got.value.0, got.value.1;
      if ool {
        var followed := Follow();
        if followed.Err? {
          return Err(followed.error);
        }
      }
      hasVal := true;
      return Ok(vsize);
    }

    /** sqfs_xattr_value. */
    method Value(copy: bool) returns (r: Result<seq<Byte>>)
      requires Valid() && at.Some?
      modifies `cVsize, `hasVsize, `cVal, `hasVal, `cNext, `hasNext, `vsize, md.Repr()
      ensures md.Valid() && md.held == old(md.held)
      ensures r.Ok? ==> Valid() && md.failed == old(md.failed)
      ensures r.Ok? ==> hasNext && ValueAt(src, base, at.value, ool).Ok?
      ensures r.Ok? ==> r.value == if copy then ValueAt(src, base, at.value, ool).value.0 else []
      ensures r.Err? ==> (r == Err(AssertFailed) && old(md.failed)) || ValueAt(src, base, at.value, ool) == Err(r.error)
    {
      if !hasVal {
        var sized := ValueSize();
        if sized.Err? {
          return Err(sized.error);
        }
      }
      var got := ReadBytes(md, im, src, cVal, vsize, copy);
      if got.Err? {
        return Err(got.error);
      }
      if !ool {
        cNext := got.value.1;
        hasNext := true;
      }
      return Ok(got.value.0);
    }

    /** The first part of sqfs_xattr_read: makes the cursor behind the current entry known, by skipping
        the value as an inline one if nothing has asked for it. */
    method Pass() returns (r: Result<()>)
      requires Valid()
      modifies `ool, `cVsize, `hasVsize, `cVal, `hasVal, `cNext, `hasNext, `vsize, md.Repr()
      ensures md.Valid() && md.held == old(md.held)
      ensures r.Ok? ==> Valid() && md.failed == old(md.failed) && hasNext
      ensures r.Ok? && old(hasNext) ==> cNext == old(cNext)
      ensures r.Ok? && !old(hasNext) ==> NextAt(src, base, at.value, false) == Ok(cNext)
      ensures r.Err? ==> (r == Err(AssertFailed) && old(md.failed)) ||
                         (at.Some? && !old(hasNext) && ValueAt(src, base, at.value, false) == Err(r.error))
    {
      if !hasNext {
        ool := false;
        var skipped := Value(false);
        if skipped.Err? {
          return Err(skipped.error);
        }
      }
      return Ok(());
    }

    /** Where the next entry is taken to start: where the current one ended, if that is known, or else
        behind the value as an inline one. */
    ghost function Upcoming(): Result<Cursor>
      requires Valid()
      reads this, md.Repr()
    {
      if hasNext then Ok(cNext) else NextAt(src, base, at.value, false)
    }

    /** sqfs_xattr_read: on to the next entry. */
    method Read() returns (r: Result<()>)
      requires Valid()
      modifies this, md.Repr()
      ensures md.Valid() && md.held == old(md.held)
      ensures r.Ok? ==> Valid() && md.failed == old(md.failed)
      ensures r.Ok? ==> 0 < old(remain) && remain == old(remain) - 1
      ensures r.Ok? ==> at.Some? && old(Upcoming()) == Ok(at.value) && ool == entry.ool && entry.kind <= PREFIX_MAX
      ensures r.Err? && 0 < old(remain) ==>
                || (r == Err(AssertFailed) && old(md.failed))
                || old(Upcoming()).Err?
                || src.head(old(Upcoming()).value).Err?
                || src.head(old(Upcoming()).value).value.0.kind > PREFIX_MAX
    {
      if remain == 0 {
        return Err(Invalid);
      }
      var passed := Pass();
      if passed.Err? {
        return Err(passed.error);
      }
      r := Enter();
    }

    /** The rest of sqfs_xattr_read: the head of the entry at the known cursor. */
    method Enter() returns (r: Result<()>)
      requires Valid() && hasNext && 0 < remain
      modifies `at, `entry, `cName, `ool, `remain, `hasVsize, `hasVal, `hasNext, md.Repr()
      ensures md.Valid() && md.held == old(md.held)
      ensures r.Ok? ==> Valid() && md.failed == old(md.failed)
      ensures r.Ok? ==> at == Some(cNext) && remain == old(remain) - 1 && ool == entry.ool && entry.kind <= PREFIX_MAX
      ensures r.Err? ==>
                || (r == Err(AssertFailed) && old(md.failed))
                || src.head(cNext).Err?
                || src.head(cNext).value.0.kind > PREFIX_MAX
    {
      var got := ReadHead(md, im, src, cNext);
      if got.Err? {
        return Err(got.error);
      }
      at := Some(cNext);
      entry, cName := got.value.0, got.value.1;
      ool := entry.ool;
      if entry.kind > PREFIX_MAX {
        return Err(Invalid);
      }
      remain := remain - 1;
      hasVsize, hasVal, hasNext := false, false, false;
      return Ok(());
    }
  }
}
