/** What a regular file holds: its decoded blocks and holes one after the other, then the slice of
    its fragment. */
module FileContent {
  import opened Prelude
  import opened Blocklist

  /** What the stored block at a position decodes to under a header. */
  type Store = (nat, nat) -> Option<seq<Byte>>

  /** A regular file with the bytes its fragment contributes. */
  datatype Content = Content(f: File, store: Store, tail: seq<Byte>) {

    ghost predicate InFragment() {
      f.ino.fragIdx != 0xffff_ffff
    }

    /** Every block but the file's last decodes to blockSize bytes, and the last to what is left. */
    ghost predicate Decodes() {
      && 0 < f.blockSize
      && (forall k | 0 <= k < f.Count() :: Decoded(k))
      && |tail| == (if InFragment() then Rem(f.ino.fileSize, f.blockSize) else 0)
    }

    ghost predicate Decoded(k: nat) {
      || f.Size(k) == 0
      || (store(f.BlockPos(k), f.header(k)).Some? && |store(f.BlockPos(k), f.header(k)).value| == Length(k))
    }

    /** How much of the file block k covers. */
    ghost function Length(k: nat): int {
      Min(f.blockSize, f.ino.fileSize - Pos(f.blockSize, k))
    }

    /** Block k: zeros for a hole, what is stored otherwise. */
    ghost function Block(k: nat): (s: seq<Byte>)
      requires Decodes() && k < f.Count()
      ensures |s| == Length(k)
    {
      Limits(k);
      assert Decoded(k);
      if f.Size(k) == 0 then Zeros(Length(k)) else store(f.BlockPos(k), f.header(k)).value
    }

    /** Where blocks start and end in the file. */
    lemma Limits(k: nat)
      requires 0 < f.blockSize && k < f.Count()
      ensures 0 < Length(k) <= f.blockSize
      ensures k + 1 < f.Count() || InFragment() ==> Length(k) == f.blockSize
      ensures k + 1 == f.Count() && !InFragment() ==> Pos(f.blockSize, k) + Length(k) == f.ino.fileSize
    {
      CountLimits();
      PosMonotone(f.blockSize, k, f.Count() - 1);
      if k + 1 < f.Count() {
        PosMonotone(f.blockSize, k + 1, f.Count() - 1);
      }
    }

    /** The blocks cover the file up to the tail, which is shorter than a block. */
    lemma CountLimits()
      requires 0 < f.blockSize
      ensures InFragment() ==> Pos(f.blockSize, f.Count()) + Rem(f.ino.fileSize, f.blockSize) == f.ino.fileSize
      ensures !InFragment() ==> Pos(f.blockSize, f.Count()) >= f.ino.fileSize
      ensures !InFragment() && 0 < f.Count() ==> Pos(f.blockSize, f.Count() - 1) < f.ino.fileSize
    {
      PosQuot(f.blockSize, f.ino.fileSize);
      if 0 < f.Count() {
        PosMonotone(f.blockSize, f.Count() - 1, Quot(f.ino.fileSize, f.blockSize));
      }
    }

    /** The first k blocks. */
    ghost function Upto(k: nat): (s: seq<Byte>)
      requires Decodes() && k <= f.Count()
      ensures |s| == Min(Pos(f.blockSize, k), f.ino.fileSize)
    {
      if k == 0 then []
      else
        Limits(k - 1);
        Upto(k - 1) + Block(k - 1)
    }

    /** The whole file. */
    ghost function Bytes(): (s: seq<Byte>)
      requires Decodes()
      ensures |s| == f.ino.fileSize
    {
      CountLimits();
      Upto(f.Count()) + tail
    }

    lemma {:induction false} UptoPrefix(j: nat, k: nat)
      requires Decodes() && j <= k <= f.Count()
      ensures |Upto(j)| <= |Upto(k)| && Upto(k)[..|Upto(j)|] == Upto(j)
    {
      if j < k {
        UptoPrefix(j, k - 1);
        PrefixOfSum(Upto(k - 1), Block(k - 1), |Upto(j)|);
      }
    }

    /** The file begins with its first k blocks. */
    lemma UptoInBytes(k: nat)
      requires Decodes() && k <= f.Count()
      ensures |Upto(k)| <= |Bytes()| && Bytes()[..|Upto(k)|] == Upto(k)
    {
      UptoPrefix(k, f.Count());
      PrefixOfSum(Upto(f.Count()), tail, |Upto(k)|);
    }

    /** Where block k is in the first k + 1 blocks. */
    lemma BlockInUpto(k: nat)
      requires Decodes() && k < f.Count()
      ensures 0 <= Length(k) && |Upto(k + 1)| == Pos(f.blockSize, k) + Length(k)
      ensures Upto(k + 1)[Pos(f.blockSize, k)..] == Block(k)
    {
      Limits(k);
    }

    /** Block k is where it should be in the file. */
    lemma BlockInBytes(k: nat)
      requires Decodes() && k < f.Count()
      ensures 0 <= Length(k) && Pos(f.blockSize, k) + Length(k) <= f.ino.fileSize
      ensures Bytes()[Pos(f.blockSize, k)..Pos(f.blockSize, k) + Length(k)] == Block(k)
    {
      UptoInBytes(k + 1);
      BlockInUpto(k);
      SliceOfPrefix(Bytes(), Upto(k + 1), Pos(f.blockSize, k), |Upto(k + 1)|);
    }

    /** A stretch inside block k. */
    lemma SliceInBlock(k: nat, from: nat, to: nat)
      requires Decodes() && k < f.Count() && from <= to <= Length(k)
      ensures Pos(f.blockSize, k) + to <= f.ino.fileSize
      ensures Bytes()[Pos(f.blockSize, k) + from..Pos(f.blockSize, k) + to] == Block(k)[from..to]
    {
      BlockInBytes(k);
      SubSlice(Bytes(), Pos(f.blockSize, k), Length(k), from, to);
    }

    /** A stretch inside the fragment. */
    lemma SliceInTail(from: nat, to: nat)
      requires Decodes() && InFragment() && from <= to <= |tail|
      ensures Pos(f.blockSize, f.Count()) + to <= f.ino.fileSize
      ensures Bytes()[Pos(f.blockSize, f.Count()) + from..Pos(f.blockSize, f.Count()) + to] == tail[from..to]
    {
      CountLimits();
    }
  }
}
