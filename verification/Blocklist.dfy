/** The list of data blocks of a regular file: what it says (pure), and how a scan of it goes. */
module Blocklist {
  import opened Prelude
  import opened Image
  import Disk

  const INVALID_FRAG: nat := 0xffff_ffff
  const ENTRY_SIZE := 4
  const ENTRIES_PER_MD_BLOCK := 2048

  /** The parts of sqfs_inode that reading a file uses; `next` is the metadata behind the inode. */
  datatype Inode = Inode(regular: bool, number: nat, next: Cursor, startBlock: nat, fileSize: nat,
                         fragIdx: nat, fragOff: nat)

  /** The values of a sqfs_blocklist. */
  datatype State = State(remain: nat, cur: Cursor, started: bool, pos: nat, block: nat, header: nat, inputSize: nat)

  /** a / b and a % b as repeated subtraction, which keeps division by a variable out of every proof
      but that of QuotRem. */
  function Quot(a: nat, b: nat): nat
    requires 0 < b
  {
    if a < b then 0 else 1 + Quot(a - b, b)
  }

  function Rem(a: nat, b: nat): (r: nat)
    requires 0 < b
    ensures r < b
  {
    if a < b then a else Rem(a - b, b)
  }

  lemma {:induction false} QuotRem(a: nat, b: nat)
    requires 0 < b
    ensures a / b == Quot(a, b) && a % b == Rem(a, b)
  {
    if a >= b {
      QuotRem(a - b, b);
      Unique(a, b, 1 + (a - b) / b, (a - b) % b);
    }
  }

  lemma Unique(a: nat, b: nat, q: nat, r: nat)
    requires 0 < b && a == q * b + r && r < b
    ensures a / b == q && a % b == r
  {
    MulMonotone(q + 1, a / b, b);
    MulMonotone(a / b + 1, q, b);
  }

  lemma MulMonotone(x: int, y: int, b: nat)
    ensures x <= y ==> x * b <= y * b
    ensures x * b == (x - 1) * b + b
  {
    if x <= y {
      assert y * b == x * b + (y - x) * b;
    }
  }

  /** a % b. */
  method Modulo(a: nat, b: nat) returns (r: nat)
    requires 0 < b
    ensures r == Rem(a, b)
  {
    QuotRem(a, b);
    r := a % b;
  }

  /** How many blocks of a given size hold `total` bytes. */
  function Ceil(total: nat, group: nat): nat
    requires 0 < group
  {
    Quot(total, group) + if Rem(total, group) != 0 then 1 else 0
  }

  /** `n` is the least number of groups that hold `total` bytes. */
  ghost predicate IsLeast(n: nat, group: nat, total: nat) {
    total <= n * group && (0 < n ==> (n - 1) * group < total)
  }

  /** `n` is the number of whole groups in `total` bytes. */
  ghost predicate IsWhole(n: nat, group: nat, total: nat) {
    n * group <= total < (n + 1) * group
  }

  lemma CountsGroups(total: nat, group: nat)
    requires 0 < group
    ensures IsWhole(Quot(total, group), group, total) && IsLeast(Ceil(total, group), group, total)
  {
    var q := Quot(total, group);
    PosQuot(group, total);
    PosMul(group, q);
    MulMonotone(q, q, group);
    MulMonotone(q + 1, q + 1, group);
  }

  /** sqfs_divceil. */
  method DivCeil(total: nat, group: nat) returns (q: nat)
    requires 0 < group
    ensures IsLeast(q, group, total) && q == Ceil(total, group)
  {
    QuotRem(total, group);
    CountsGroups(total, group);
    q := total / group;
    if total % group != 0 {
      q := q + 1;
    }
  }

  /** The number of blocks: a tail that does not fill a block is a block of its own unless it is in a
      fragment. */
  function BlockCount(blockSize: nat, ino: Inode): nat
    requires 0 < blockSize
  {
    if ino.fragIdx == INVALID_FRAG then Ceil(ino.fileSize, blockSize) else Quot(ino.fileSize, blockSize)
  }

  /** sqfs_blocklist_count. */
  method CountBlocks(blockSize: nat, ino: Inode) returns (n: nat)
    requires 0 < blockSize
    ensures if ino.fragIdx == 0xffff_ffff then IsLeast(n, blockSize, ino.fileSize)
            else IsWhole(n, blockSize, ino.fileSize)
    ensures n == BlockCount(blockSize, ino)
  {
    CountsGroups(ino.fileSize, blockSize);
    if ino.fragIdx == INVALID_FRAG {
      n := DivCeil(ino.fileSize, blockSize);
    } else {
      QuotRem(ino.fileSize, blockSize);
      n := ino.fileSize / blockSize;
    }
  }

  /** sqfs_blocklist_init; the header is not set before the first step. */
  function Start(blockSize: nat, ino: Inode): State
    requires 0 < blockSize
  {
    State(BlockCount(blockSize, ino), ino.next, false, 0, ino.startBlock, 0, 0)
  }

  /** Reads the list entry under a cursor: its header and the cursor behind it. */
  type Reader = Cursor -> Result<(nat, Cursor)>

  /** The meaning of sqfs_blocklist_next. */
  function Step(read: Reader, blockSize: nat, s: State): Result<State> {
    if s.remain == 0 then Err(Invalid)
    else
      match read(s.cur)
      case Err(e) => Err(e)
      case Ok((header, cur)) =>
        Ok(State(s.remain - 1, cur, true, s.pos + (if s.started then blockSize else 0),
                 s.block + s.inputSize, header, Disk.DataHeader(header).1))
  }

  /** The state after `n` more steps. */
  function Steps(read: Reader, blockSize: nat, s: State, n: nat): Result<State>
    decreases n
  {
    if n == 0 then Ok(s)
    else
      match Step(read, blockSize, s)
      case Err(e) => Err(e)
      case Ok(t) => Steps(read, blockSize, t, n - 1)
  }

  /** k blocks' worth of file. */
  ghost function Pos(blockSize: nat, k: nat): nat {
    if k == 0 then 0 else Pos(blockSize, k - 1) + blockSize
  }

  lemma {:induction false} PosMul(blockSize: nat, k: nat)
    ensures Pos(blockSize, k) == k * blockSize
  {
    if k > 0 {
      PosMul(blockSize, k - 1);
      assert k * blockSize == (k - 1) * blockSize + blockSize;
    }
  }

  /** Any offset is some whole blocks and less than a block more. */
  lemma {:induction false} PosQuot(blockSize: nat, a: nat)
    requires 0 < blockSize
    ensures Pos(blockSize, Quot(a, blockSize)) + Rem(a, blockSize) == a
  {
    if a >= blockSize {
      PosQuot(blockSize, a - blockSize);
    }
  }

  lemma {:induction false} PosMonotone(blockSize: nat, j: nat, k: nat)
    requires j <= k
    ensures Pos(blockSize, j) <= Pos(blockSize, k)
    ensures j < k ==> Pos(blockSize, j) + blockSize <= Pos(blockSize, k)
  {
    if j < k {
      PosMonotone(blockSize, j, k - 1);
    }
  }

  // ---- The block list of one file ----

  /** A regular file: its inode and its block list, as the header of every entry and the cursor
      under which the entry is read. */
  datatype File = File(read: Reader, blockSize: nat, ino: Inode, header: nat -> nat, cursor: nat -> Cursor) {
    ghost function Count(): nat
      requires 0 < blockSize
    {
      BlockCount(blockSize, ino)
    }

    /** The list can be read, entry after entry, from the metadata behind the inode on. */
    ghost predicate Listed() {
      && 0 < blockSize
      && ino.next == cursor(0)
      && forall k, next | 0 <= k < Count() && next == k + 1 :: read(cursor(k)) == Ok((header(k), cursor(next)))
    }

    /** Stored size of block k; 0 is a hole. */
    ghost function Size(k: nat): nat {
      Disk.DataHeader(header(k)).1
    }

    /** Where block k is stored: the stored blocks follow each other from startBlock on. */
    ghost function BlockPos(k: nat): nat {
      if k == 0 then ino.startBlock else BlockPos(k - 1) + Size(k - 1)
    }

    /** A block list that has k blocks behind it, whatever way it got there. */
    ghost predicate At(k: nat, s: State)
      requires 0 < blockSize
    {
      && k <= Count()
      && s.remain == Count() - k
      && s.cur == cursor(k)
      && s.block + s.inputSize == BlockPos(k)
      && s.pos + (if s.started then blockSize else 0) == Pos(blockSize, k)
    }

    /** The same, but at the end of the list only the number of blocks left to step over counts. */
    ghost predicate Stands(k: nat, s: State)
      requires 0 < blockSize
    {
      At(k, s) || (k == Count() && s.remain == 0)
    }

    /** The list just after it stepped over block k. */
    ghost function After(k: nat): State
      requires 0 < blockSize && k < Count()
    {
      State(Count() - k - 1, cursor(k + 1), true, Pos(blockSize, k), BlockPos(k), header(k), Size(k))
    }

    lemma StartAt()
      requires Listed()
      ensures At(0, Start(blockSize, ino))
    {
    }

    /** One step from anywhere in the list: everything it yields is fixed by where it stands. */
    lemma StepAt(k: nat, s: State)
      requires Listed() && At(k, s) && k < Count()
      ensures Step(read, blockSize, s) == Ok(After(k))
      ensures At(k + 1, After(k))
    {
    }

    /** Any further number of steps, likewise. */
    lemma {:induction false} StepsAt(k: nat, s: State, n: nat)
      requires Listed() && At(k, s) && 0 < n && k + n <= Count()
      ensures Steps(read, blockSize, s, n) == Ok(After(k + n - 1))
      decreases n
    {
      StepAt(k, s);
      if n == 1 {
        assert Steps(read, blockSize, After(k), 0) == Ok(After(k));
      } else {
        StepsAt(k + 1, After(k), n - 1);
      }
    }

    /** A list that stands k blocks into the file goes on exactly as a scan from the start does. */
    lemma SameAsScan(k: nat, s: State, n: nat)
      requires Listed() && At(k, s) && 0 < n && k + n <= Count()
      ensures Steps(read, blockSize, s, n) == Steps(read, blockSize, Start(blockSize, ino), k + n)
    {
      StepsAt(k, s, n);
      StartAt();
      StepsAt(0, Start(blockSize, ino), k + n);
    }
  }
}
