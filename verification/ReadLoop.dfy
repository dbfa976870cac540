/** How far sqfs_read_range has come: the arithmetic of its loop, apart from the file system. */
module ReadLoop {
  import opened Prelude
  import opened Blocklist
  import opened FileContent

  /** `out` is what the file holds from `start` on. */
  ghost predicate SoFar(c: Content, start: nat, out: seq<Byte>)
    requires c.Decodes()
  {
    start + |out| <= c.f.ino.fileSize && out == c.Bytes()[start..start + |out|]
  }

  /** The loop has copied `out`, wants `left` more bytes, stands k blocks into the list, and the next
      byte is `readOff` bytes into block b (or into the tail, if b is the block count). While
      nothing is copied the list may still be in front of block b. */
  ghost predicate Reading(c: Content, start: nat, b: nat, k: nat, readOff: int, out: seq<Byte>)
    requires c.Decodes()
  {
    && SoFar(c, start, out)
    && k <= c.f.Count()
    && (Inside(c, start + |out|, b, readOff) ==> k <= b && (out != [] ==> k == b))
    && (!Inside(c, start + |out|, b, readOff) ==>
          start + |out| == c.f.ino.fileSize && k == c.f.Count() && !c.InFragment())
  }

  /** Byte `at` of the file is `readOff` bytes into block b; it is before the file's end unless b is
      the block count. */
  ghost predicate Inside(c: Content, at: nat, b: nat, readOff: int)
    requires 0 < c.f.blockSize
  {
    && Pos(c.f.blockSize, b) + readOff == at
    && 0 <= readOff < c.f.blockSize
    && (b < c.f.Count() ==> at < c.f.ino.fileSize)
  }

  /** A block that ends before `start` is passed over. */
  lemma Pass(c: Content, start: nat, b: nat, k: nat, readOff: int, out: seq<Byte>)
    requires c.Decodes() && Reading(c, start, b, k, readOff, out) && k < c.f.Count()
    requires Pos(c.f.blockSize, k) + c.f.blockSize <= start
    ensures Reading(c, start, b, k + 1, readOff, out) && k < b
  {
    if b <= k {
      PosMonotone(c.f.blockSize, b, k);
    }
  }

  /** Any other block is the one that holds the next byte. */
  lemma Meet(c: Content, start: nat, b: nat, k: nat, readOff: int, out: seq<Byte>)
    requires c.Decodes() && Reading(c, start, b, k, readOff, out) && k < c.f.Count()
    requires Pos(c.f.blockSize, k) + c.f.blockSize > start
    ensures k == b && 0 <= readOff < c.Length(k)
    ensures Pos(c.f.blockSize, k) + readOff == start + |out|
  {
    if k < b {
      PosMonotone(c.f.blockSize, k + 1, b);
    }
    c.Limits(k);
  }

  /** Copying from block k: either all that is left of it, which leads to the next block, or as much
      as is wanted. */
  lemma Copy(c: Content, start: nat, k: nat, readOff: nat, out: seq<Byte>, left: nat, chunk: seq<Byte>)
    requires c.Decodes() && Reading(c, start, k, k, readOff, out) && k < c.f.Count() && 0 < left
    requires readOff < c.Length(k) && Pos(c.f.blockSize, k) + readOff == start + |out|
    requires chunk == c.Block(k)[readOff..readOff + Min(c.Length(k) - readOff, left)]
    ensures |chunk| <= left && SoFar(c, start, out + chunk)
    ensures |chunk| < left ==> Reading(c, start, k + 1, k + 1, 0, out + chunk)
  {
    c.SliceInBlock(k, readOff, readOff + |chunk|);
    Append(c, start, out, chunk);
    if |chunk| < left {
      Onward(c, start, k, out + chunk);
    }
  }

  /** At the end of block k the next byte, if there is one, is the first of what follows. */
  lemma Onward(c: Content, start: nat, k: nat, out: seq<Byte>)
    requires c.Decodes() && k < c.f.Count() && SoFar(c, start, out)
    requires start + |out| == Pos(c.f.blockSize, k) + c.Length(k)
    ensures Reading(c, start, k + 1, k + 1, 0, out)
  {
    c.Limits(k);
    if k + 1 < c.f.Count() {
      c.Limits(k + 1);
    }
  }

  lemma Append(c: Content, start: nat, out: seq<Byte>, chunk: seq<Byte>)
    requires c.Decodes() && SoFar(c, start, out)
    requires start + |out| + |chunk| <= c.f.ino.fileSize
    requires chunk == c.Bytes()[start + |out|..start + |out| + |chunk|]
    ensures SoFar(c, start, out + chunk)
  {
    Adjacent(c.Bytes(), start, start + |out|, start + |out| + |chunk|);
  }

  /** When no block is left and the file has no fragment, everything has been copied. */
  lemma NoTail(c: Content, start: nat, b: nat, readOff: int, out: seq<Byte>)
    requires c.Decodes() && Reading(c, start, b, c.f.Count(), readOff, out) && !c.InFragment()
    ensures start + |out| == c.f.ino.fileSize
  {
    c.CountLimits();
    if Inside(c, start + |out|, b, readOff) {
      PosMonotone(c.f.blockSize, c.f.Count(), b);
    }
  }

  /** When no block is left, the next byte is in the fragment. */
  lemma TailFrom(c: Content, start: nat, b: nat, readOff: int, out: seq<Byte>)
    requires c.Decodes() && Reading(c, start, b, c.f.Count(), readOff, out) && c.InFragment()
    ensures b == c.f.Count() && 0 <= readOff <= |c.tail| && start + |out| + (|c.tail| - readOff) == c.f.ino.fileSize
  {
    c.CountLimits();
    PosMonotone(c.f.blockSize, c.f.Count(), b);
    PosQuot(c.f.blockSize, c.f.ino.fileSize);
  }

  lemma TailTo(c: Content, start: nat, b: nat, readOff: nat, out: seq<Byte>, left: nat, chunk: seq<Byte>)
    requires c.Decodes() && Reading(c, start, b, c.f.Count(), readOff, out) && c.InFragment()
    requires readOff <= |c.tail| && chunk == c.tail[readOff..readOff + Min(|c.tail| - readOff, left)]
    ensures |chunk| <= left && SoFar(c, start, out + chunk)
    ensures |chunk| == left || start + |out + chunk| == c.f.ino.fileSize
  {
    TailFrom(c, start, b, readOff, out);
    c.CountLimits();
    c.SliceInTail(readOff, readOff + |chunk|);
    Append(c, start, out, chunk);
  }

  /** The loop may begin anywhere in front of the block that holds byte `start`. */
  lemma BeginAt(c: Content, start: nat, k: nat)
    requires c.Decodes() && start < c.f.ino.fileSize && k <= Quot(start, c.f.blockSize) && k <= c.f.Count()
    ensures Reading(c, start, Quot(start, c.f.blockSize), k, Rem(start, c.f.blockSize), [])
  {
    PosQuot(c.f.blockSize, start);
  }

  /** All that was wanted, as a slice of the file. */
  lemma Wanted(c: Content, start: nat, size: nat, out: seq<Byte>)
    requires c.Decodes() && start <= c.f.ino.fileSize
    requires SoFar(c, start, out) && |out| == Min(size, c.f.ino.fileSize - start)
    ensures out == c.Bytes()[start..Min(start + size, c.f.ino.fileSize)]
  {
  }
}
