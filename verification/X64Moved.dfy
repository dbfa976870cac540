/** The code in a trampoline: the copies of several instructions, what becomes of them, and what they denote. */
module X64Moved {
  import opened Prelude
  import opened Addresses
  import opened DetourJump
  import opened X64Copy
  import opened X64Decode
  import opened X64Instruction

  /** The size of rbCode in a trampoline, and what a new trampoline is filled with. */
  const CODE_SIZE := 30
  const BREAK: Byte := 0xcc

  // ---- Parts one behind the other ----

  function Joined(parts: seq<seq<Byte>>): seq<Byte> {
    if parts == [] then [] else Joined(parts[..|parts| - 1]) + parts[|parts| - 1]
  }

  /** Where part k begins. */
  function Offset(parts: seq<seq<Byte>>, k: nat): nat
    requires k <= |parts|
  {
    if k == 0 then 0 else Offset(parts, k - 1) + |parts[k - 1]|
  }

  lemma {:induction false} OffsetStart(ss: seq<seq<Byte>>, all: seq<seq<Byte>>, k: nat)
    requires ss <= all && k <= |ss|
    ensures Offset(ss, k) == Offset(all, k)
  {
    if k > 0 {
      OffsetStart(ss, all, k - 1);
    }
  }

  lemma {:induction false} PartAt(parts: seq<seq<Byte>>, k: nat)
    requires k < |parts|
    ensures |Joined(parts)| == Offset(parts, |parts|) && Offset(parts, k) + |parts[k]| <= |Joined(parts)|
    ensures Joined(parts)[Offset(parts, k)..Offset(parts, k) + |parts[k]|] == parts[k]
    decreases |parts|
  {
    var init, last := parts[..|parts| - 1], |parts| - 1;
    OffsetStart(init, parts, last);
    OffsetStart(init, parts, k);
    if k < last {
      PartAt(init, k);
      SliceOfPrefix(Joined(parts), Joined(init), Offset(parts, k), Offset(parts, k) + |parts[k]|);
    } else {
      if init != [] {
        PartAt(init, 0);
      }
      LastOfSum(Joined(init), parts[k]);
    }
  }

  lemma LastOfSum(a: seq<Byte>, b: seq<Byte>)
    ensures (a + b)[|a|..|a| + |b|] == b
  {
  }

  // ---- Copying one behind the other ----

  /** What is written for an instruction at one address that is copied to another, and the extra bytes reported. */
  datatype Copying = Copying(copy: (seq<Byte>, Address, Address) -> seq<Byte>,
                             extra: (seq<Byte>, Address, Address) -> int)

  /** Instructions that are at `src`, one behind the other, and are moved to `dst`. */
  datatype Block = Block(how: Copying, sources: seq<seq<Byte>>, src: Address, dst: Address)

  /** Where instruction k is. */
  ghost function From(b: Block, k: nat): Address
    requires k <= |b.sources|
  {
    Wrap(b.src + Offset(b.sources, k))
  }

  /** Where the copy of instruction k is put, in bytes behind `dst`: DetourAttachEx goes on by the size of an
      instruction and the extra bytes that are reported for it. */
  ghost function Pos(b: Block, k: nat): int
    requires k <= |b.sources|
  {
    if k == 0 then 0
    else
      var before := Pos(b, k - 1);
      before + |b.sources[k - 1]| + b.how.extra(b.sources[k - 1], From(b, k - 1), Wrap(b.dst + before))
  }

  ghost function To(b: Block, k: nat): Address
    requires k <= |b.sources|
  {
    Wrap(b.dst + Pos(b, k))
  }

  ghost function Copy(b: Block, k: nat): seq<Byte>
    requires k < |b.sources|
  {
    b.how.copy(b.sources[k], From(b, k), To(b, k))
  }

  /** The first k copies are all written into rbCode. */
  ghost predicate Contained(b: Block, k: nat)
    requires k <= |b.sources|
  {
    k == 0 || (Contained(b, k - 1) && 0 <= Pos(b, k - 1) && Pos(b, k - 1) + |Copy(b, k - 1)| <= CODE_SIZE)
  }

  /** What is in rbCode then: a copy may be written over those before it. */
  ghost function Buffer(b: Block, k: nat): (s: seq<Byte>)
    requires k <= |b.sources| && Contained(b, k)
    ensures |s| == CODE_SIZE
  {
    if k == 0 then seq(CODE_SIZE, _ => BREAK)
    else Over(Buffer(b, k - 1), Pos(b, k - 1), Copy(b, k - 1))
  }

  /** All copies are written into rbCode, and what follows them begins there. */
  ghost predicate IsContained(b: Block) {
    Contained(b, |b.sources|) && 0 <= Pos(b, |b.sources|) <= CODE_SIZE
  }

  /** The moved code. */
  ghost function Moved(b: Block): (s: seq<Byte>)
    requires IsContained(b)
    ensures |s| == Pos(b, |b.sources|)
  {
    Buffer(b, |b.sources|)[..Pos(b, |b.sources|)]
  }

  /** The next copy is put right behind copy k. */
  ghost predicate Joins(b: Block, k: nat)
    requires k < |b.sources|
  {
    |b.sources[k]| + b.how.extra(b.sources[k], From(b, k), To(b, k)) == |Copy(b, k)|
  }

  ghost predicate AllJoin(b: Block, j: nat, k: nat)
    requires k <= |b.sources|
  {
    forall i | j <= i < k :: Joins(b, i)
  }

  lemma {:induction false} RowEnds(b: Block, j: nat, i: nat, k: nat)
    requires j <= i && k == i + 1 <= |b.sources| && AllJoin(b, j, k)
    ensures Pos(b, j) + |Copy(b, j)| <= Pos(b, k)
    decreases i
  {
    assert Joins(b, i);
    if j < i {
      RowEnds(b, j, i - 1, i);
    }
  }

  /** So that each copy stays as it was written. */
  lemma {:induction false} RowStays(b: Block, j: nat, i: nat, k: nat)
    requires j <= i && k == i + 1 <= |b.sources| && AllJoin(b, j, k) && Contained(b, k)
    ensures 0 <= Pos(b, j) && Pos(b, j) + |Copy(b, j)| <= CODE_SIZE
    ensures Buffer(b, k)[Pos(b, j)..Pos(b, j) + |Copy(b, j)|] == Copy(b, j)
    decreases i
  {
    if j < i {
      RowStays(b, j, i - 1, i);
      RowEnds(b, j, i - 1, i);
      OverBehind(Buffer(b, i), Pos(b, i), Copy(b, i), Pos(b, j), Pos(b, j) + |Copy(b, j)|, Copy(b, j));
    } else {
      OverAt(Buffer(b, i), Pos(b, i), Copy(b, i));
    }
  }

  lemma OverBehind(buffer: seq<Byte>, at: nat, s: seq<Byte>, p: nat, q: nat, c: seq<Byte>)
    requires at + |s| <= |buffer| && p <= q <= at && buffer[p..q] == c
    ensures Over(buffer, at, s)[p..q] == c
  {
  }

  // ---- Copying x64 instructions ----

  ghost function X64(): Copying {
    Copying((s: seq<Byte>, a: Address, b: Address) => if IsInstruction(s) then CopyOf(s, a, b) else [],
            (s: seq<Byte>, a: Address, b: Address) => if IsInstruction(s) then Extra(s, a, b) else 0)
  }

  ghost predicate IsBlock(b: Block) {
    b.how == X64() && forall k | 0 <= k < |b.sources| :: IsInstruction(b.sources[k])
  }

  ghost predicate CopyReaches(b: Block, k: nat)
    requires IsBlock(b) && k < |b.sources|
  {
    Reaches(b.sources[k], From(b, k), To(b, k))
  }

  /** Code at `dst` has, where the copy of instruction k was put, what does what the instruction does. */
  ghost predicate Does(b: Block, code: seq<Byte>, k: nat)
    requires IsBlock(b) && k < |b.sources|
  {
    && 0 <= Pos(b, k) && Pos(b, k) + |Copy(b, k)| <= |code|
    && Agrees(b.sources[k], code[Pos(b, k)..Pos(b, k) + |Copy(b, k)|], From(b, k), To(b, k))
  }

  lemma CopyIs(b: Block, k: nat)
    requires IsBlock(b) && k < |b.sources|
    ensures IsInstruction(b.sources[k]) && Copy(b, k) == CopyOf(b.sources[k], From(b, k), To(b, k))
    ensures b.how.extra(b.sources[k], From(b, k), To(b, k)) == Extra(b.sources[k], From(b, k), To(b, k))
  {
  }

  /** The next copy is put right behind that of instruction k exactly unless that cannot reach and cannot grow, or is
      no instruction. */
  lemma JoinsIff(b: Block, k: nat)
    requires IsBlock(b) && k < |b.sources|
    ensures Joins(b, k) <==> !IsUnknown(b.sources[k]) && (CannotGrow(b.sources[k]) ==> CopyReaches(b, k))
  {
    CopyIs(b, k);
    CopyLength(b.sources[k], From(b, k), To(b, k));
  }

  lemma ReachesIsKnown(s: seq<Byte>, src: Address, dst: Address)
    requires IsInstruction(s) && Reaches(s, src, dst)
    ensures !IsUnknown(s)
  {
  }

  lemma ReachJoins(b: Block, k: nat)
    requires IsBlock(b) && k < |b.sources| && CopyReaches(b, k)
    ensures Joins(b, k)
  {
    JoinsIff(b, k);
    ReachesIsKnown(b.sources[k], From(b, k), To(b, k));
  }

  lemma CopyDoes(b: Block, code: seq<Byte>, k: nat)
    requires IsBlock(b) && k < |b.sources| && CopyReaches(b, k)
    requires 0 <= Pos(b, k) && Pos(b, k) + |Copy(b, k)| <= |code|
    requires code[Pos(b, k)..Pos(b, k) + |Copy(b, k)|] == Copy(b, k)
    ensures Does(b, code, k)
  {
    CopyIs(b, k);
    CopyAgrees(b.sources[k], From(b, k), To(b, k));
  }

  lemma DoesReaches(b: Block, code: seq<Byte>, k: nat)
    requires IsBlock(b) && k < |b.sources| && Does(b, code, k)
    ensures CopyReaches(b, k)
  {
    AgreesReaches(b.sources[k], code[Pos(b, k)..Pos(b, k) + |Copy(b, k)|], From(b, k), To(b, k));
  }

  /** Code that begins with the moved code has what is in the buffer. */
  lemma CodeHas(b: Block, code: seq<Byte>, n: nat, p: nat, q: nat, c: seq<Byte>)
    requires IsContained(b) && Moved(b) <= code && n == |b.sources|
    requires p <= q <= Pos(b, n) && Contained(b, n) && Buffer(b, n)[p..q] == c
    ensures q <= |code| && code[p..q] == c
  {
    var m := Moved(b);
    assert m[p..q] == c && code[..|m|] == m;
  }

  lemma CodeSlice(b: Block, code: seq<Byte>, k: nat, i: nat, n: nat)
    requires IsContained(b) && Moved(b) <= code && k <= i && n == i + 1 == |b.sources| && AllJoin(b, k, n)
    ensures 0 <= Pos(b, k) && Pos(b, k) + |Copy(b, k)| <= |code|
    ensures code[Pos(b, k)..Pos(b, k) + |Copy(b, k)|] == Copy(b, k)
  {
    RowEnds(b, k, i, n);
    RowStays(b, k, i, n);
    CodeHas(b, code, n, Pos(b, k), Pos(b, k) + |Copy(b, k)|, Copy(b, k));
  }

  lemma MovedDoes(b: Block, code: seq<Byte>, k: nat, i: nat, n: nat)
    requires IsBlock(b) && IsContained(b) && Moved(b) <= code
    requires k <= i && n == i + 1 == |b.sources| && AllJoin(b, k, n) && CopyReaches(b, k)
    ensures Does(b, code, k)
  {
    CodeSlice(b, code, k, i, n);
    CopyDoes(b, code, k);
  }

  /** Each copy is put right behind the one before, if all displacements are such that their fields can hold them. */
  lemma ReachAllJoin(b: Block)
    requires IsBlock(b) && forall k | 0 <= k < |b.sources| :: CopyReaches(b, k)
    ensures AllJoin(b, 0, |b.sources|)
  {
    forall k | 0 <= k < |b.sources|
      ensures Joins(b, k)
    {
      ReachJoins(b, k);
    }
  }

  /** All instructions are there in code that begins with the moved code, denoting what they denoted, exactly if the
      displacement of each is one that its field can hold. */
  lemma AllDo(b: Block, code: seq<Byte>)
    requires IsBlock(b) && IsContained(b) && Moved(b) <= code
    ensures (forall k | 0 <= k < |b.sources| :: Does(b, code, k)) <==>
            (forall k | 0 <= k < |b.sources| :: CopyReaches(b, k))
  {
    var n := |b.sources|;
    if forall k | 0 <= k < n :: CopyReaches(b, k) {
      ReachAllJoin(b);
      forall k | 0 <= k < n
        ensures Does(b, code, k)
      {
        MovedDoes(b, code, k, n - 1, n);
      }
    }
    if forall k | 0 <= k < n :: Does(b, code, k) {
      forall k | 0 <= k < n
        ensures CopyReaches(b, k)
      {
        DoesReaches(b, code, k);
      }
    }
  }

  // ---- Jumps that can neither reach nor grow ----

  const MOV: seq<Byte> := [0x48, 0x89, 0xc8]
  const LOOP: seq<Byte> := [0xe2, 0x10]

  lemma MovIs()
    ensures IsInstruction(MOV) && PlanOf(MOV) == Plan(1, By(COPY2_MOD, NO_PREFIX.(wide := true)))
  {
    var rest, p := MOV[1..], NO_PREFIX.(wide := true);
    assert rest == [0x89, 0xc8] && First(rest[0]) == Opcode(COPY2_MOD);
    assert ByEntry(rest, COPY2_MOD, p) == Some(Plan(0, By(COPY2_MOD, p)));
    assert First(MOV[0]) == Prefix && Seen(NO_PREFIX, MOV[0]) == p;
    assert Decode(rest, p) == Some(Plan(0, By(COPY2_MOD, p)));
    DecodeIsPlan(MOV, NO_PREFIX);
  }

  lemma LoopIs()
    ensures IsInstruction(LOOP) && PlanOf(LOOP) == Plan(0, By(COPY2_CANT_JUMP, NO_PREFIX))
  {
    assert First(LOOP[0]) == Opcode(COPY2_CANT_JUMP);
    assert ByEntry(LOOP, COPY2_CANT_JUMP, NO_PREFIX) == Some(Plan(0, By(COPY2_CANT_JUMP, NO_PREFIX)));
    DecodeIsPlan(LOOP, NO_PREFIX);
    assert LOOP[0..] == LOOP;
  }

  lemma LoopIsLost(src: Address, dst: Address)
    requires !(-0x80 <= 0x10 - Distance(dst, src) < 0x80)
    ensures IsInstruction(LOOP) && !Reaches(LOOP, src, dst) && Extra(LOOP, src, dst) == -3 &&
            |CopyOf(LOOP, src, dst)| == 2
  {
    LoopIs();
    CopyLength(LOOP, src, dst);
    CoreLength(By(COPY2_CANT_JUMP, NO_PREFIX), LOOP, src, dst);
    assert LOOP[0..] == LOOP && Wrap(src + 0) == src && Wrap(dst + 0) == dst;
    assert Field(COPY2_CANT_JUMP, NO_PREFIX, LOOP) == Some((1, 1));
    SignedByte(LOOP[1..2]);
  }

  lemma SignedByte(s: seq<Byte>)
    requires |s| == 1
    ensures Signed(s) == if s[0] < 0x80 then s[0] as int else s[0] as int - 0x100
    ensures forall v: int :: Fits(v, |s|) <==> -0x80 <= v < 0x80
  {
    assert Unsigned(s[1..]) == 0 && Pow256(|s|) == 0x100;
  }

  /** Three bytes, and two whose copy is taken for one byte less than none. */
  lemma TwoTurns(b: Block, n: nat)
    requires |b.sources| == 2 && |b.sources[0]| == n == 3 && |b.sources[1]| == 2
    requires b.how.extra(b.sources[0], b.src, b.dst) == 0 && |b.how.copy(b.sources[0], b.src, b.dst)| == 3
    requires var from, to := Wrap(b.src + n), Wrap(b.dst + n);
             b.how.extra(b.sources[1], from, to) == -3 && |b.how.copy(b.sources[1], from, to)| == 2
    ensures Pos(b, 0) == 0 && Copy(b, 0) == b.how.copy(b.sources[0], b.src, b.dst)
    ensures IsContained(b) && Moved(b) == b.how.copy(b.sources[0], b.src, b.dst)[..2]
  {
    assert Offset(b.sources, 0) == 0 && Wrap(b.src + 0) == b.src && Wrap(b.dst + 0) == b.dst;
    assert Pos(b, 1) == 3 && Offset(b.sources, 1) == 3 && Pos(b, 2) == 2;
    assert Contained(b, 0) && Contained(b, 1) && Contained(b, 2);
    OverAt(Buffer(b, 0), 0, Copy(b, 0));
    assert Buffer(b, 1)[..3] == Copy(b, 0);
    assert Buffer(b, 2)[..2] == Buffer(b, 1)[..2];
  }

  lemma X64Is(s: seq<Byte>, a: Address, b: Address)
    requires IsInstruction(s)
    ensures X64().copy(s, a, b) == CopyOf(s, a, b) && X64().extra(s, a, b) == Extra(s, a, b)
  {
  }

  lemma TooShort(b: Block, code: seq<Byte>, k: nat)
    requires IsBlock(b) && k < |b.sources| && |code| < Pos(b, k) + |Copy(b, k)|
    ensures !Does(b, code, k)
  {
  }

  lemma LastByteLost(b: Block, mov: seq<Byte>, loop: seq<Byte>, n: nat)
    requires b.how == X64() && b.sources == [mov, loop] && IsInstruction(mov) && IsInstruction(loop)
    requires |mov| == n == 3 && CopyOf(mov, b.src, b.dst) == mov && Extra(mov, b.src, b.dst) == 0
    requires var from, to := Wrap(b.src + n), Wrap(b.dst + n);
             |loop| == 2 && Extra(loop, from, to) == -3 && |CopyOf(loop, from, to)| == 2
    ensures IsBlock(b) && IsContained(b) && Moved(b) == mov[..2] && !Does(b, Moved(b), 0)
  {
    X64Is(mov, b.src, b.dst);
    X64Is(loop, Wrap(b.src + n), Wrap(b.dst + n));
    TwoTurns(b, n);
    TooShort(b, mov[..2], 0);
  }

  /** A LOOP that is too far from its target: what follows is put over it, and over the last byte of what is before
      it. That is how detours are made of such code. */
  lemma LoopDrops(b: Block)
    requires b.how == X64() && b.sources == [MOV, LOOP] && !(-0x80 <= 0x10 - Distance(b.dst, b.src) < 0x80)
    ensures IsBlock(b) && IsContained(b) && Moved(b) == MOV[..2] && !Does(b, Moved(b), 0)
  {
    MovCopied(b.src, b.dst);
    DistanceKept(b.dst, b.src, 3);
    LoopIsLost(Wrap(b.src + 3), Wrap(b.dst + 3));
    LastByteLost(b, MOV, LOOP, 3);
  }

  lemma MovCopied(src: Address, dst: Address)
    ensures IsInstruction(MOV) && CopyOf(MOV, src, dst) == MOV && Extra(MOV, src, dst) == 0
  {
    MovIs();
    var rest := MOV[1..];
    assert rest == [0x89, 0xc8] && rest[..2] == rest && MOV[..1] + rest == MOV;
    assert Field(COPY2_MOD, NO_PREFIX.(wide := true), rest) == None;
  }

  lemma SecondPos(b: Block, x: int)
    requires b.sources != [] && b.how.extra(b.sources[0], b.src, b.dst) == x
    ensures Pos(b, 1) == |b.sources[0]| + x
  {
    assert Pos(b, 0) == 0 && Offset(b.sources, 0) == 0 && Wrap(b.src + 0) == b.src && Wrap(b.dst + 0) == b.dst;
  }

  lemma NotContained(b: Block)
    requires 1 < |b.sources| && Pos(b, 1) < 0
    ensures !IsContained(b)
  {
    if Contained(b, |b.sources|) {
      ContainedBefore(b, 2, |b.sources|);
      assert false;
    }
  }

  /** And at the beginning of a function, the code behind it is put one byte in front of the trampoline. */
  lemma LoopFirst(rest: seq<seq<Byte>>, src: Address, dst: Address)
    requires rest != [] && !(-0x80 <= 0x10 - Distance(dst, src) < 0x80)
    ensures var b := Block(X64(), [LOOP] + rest, src, dst); Pos(b, 1) == -1 && !IsContained(b)
  {
    var b := Block(X64(), [LOOP] + rest, src, dst);
    LoopIsLost(src, dst);
    X64Is(LOOP, src, dst);
    SecondPos(b, -3);
    NotContained(b);
  }

  lemma {:induction false} ContainedBefore(b: Block, i: nat, n: nat)
    requires i <= n <= |b.sources| && Contained(b, n)
    ensures Contained(b, i)
    decreases n
  {
    if i < n {
      ContainedBefore(b, i, n - 1);
    }
  }

  // ---- The first jump of a function ----

  lemma SignedIsS32(s: seq<Byte>)
    requires |s| == 4
    ensures Signed(s) == S32(s)
  {
    assert Unsigned(s[1..][1..][1..]) == s[3] as nat;
    assert Unsigned(s[1..][1..]) == s[2] as nat + 0x100 * s[3] as nat;
    assert Unsigned(s[1..]) == s[1] as nat + 0x100 * (s[2] as nat + 0x100 * s[3] as nat);
    assert Pow256(4) == TWO32 by {
      assert Pow256(1) == 0x100 && Pow256(2) == 0x1_0000 && Pow256(3) == 0x100_0000;
    }
  }

  /** Numbers that differ by a multiple of 2^64, one small and one not far off, are the same. */
  lemma SameNumber(a: int, b: int)
    requires Wrap(a) == Wrap(b) && -TWO64 < a - b < TWO64
    ensures a == b
  {
  }

  lemma Reach(at: Address, t: Address, to: Address, was: int, size: nat)
    requires to == Wrap(at + size + was) && -0x8000_0000 <= was < 0x8000_0000 && size < 0x100
    requires Fits32(to - (t + size))
    ensures was - Distance(t, at) == to - (t + size)
  {
    var c := DistanceIs(t, at);
    assert Wrap(was - Distance(t, at)) == Wrap(to - (t + size));
    SameNumber(was - Distance(t, at), to - (t + size));
  }

  /** The displacement of the jump that code begins with, adjusted for a trampoline within the bounds. */
  lemma DisplacementFits(code: Memory, at: Address, t: Address, size: nat)
    requires Bounds(code, at).0 <= t <= Bounds(code, at).1 && 4 < size < 0x100 && at + size < TWO64
    requires JumpsTo(code, at) == Some(Wrap(at + size + Displacement(code, at + (size - 4))))
    ensures Fits32(Displacement(code, at + (size - 4)) - Distance(t, at))
  {
    var was := Displacement(code, at + (size - 4));
    DisplacementRange([code(at + (size - 4)), code(at + (size - 4) + 1), code(at + (size - 4) + 2),
                       code(at + (size - 4) + 3)]);
    InReach(code, at, t, size, 0);
    Reach(at, t, JumpsTo(code, at).value, was, size);
  }

  lemma DisplacementRange(s: seq<Byte>)
    requires |s| == 4
    ensures -0x8000_0000 <= S32(s) < 0x8000_0000
  {
  }

  lemma FieldIs(code: Memory, at: Address, b: seq<Byte>)
    requires 4 <= |b| && at + |b| < TWO64 && forall k | 0 <= k < |b| :: b[k] == code(at + k)
    ensures Signed(b[|b| - 4..|b| - 4 + 4]) == Displacement(code, at + (|b| - 4))
  {
    var at4, f := |b| - 4, b[|b| - 4..|b| - 4 + 4];
    assert f == [code(at + at4), code(at + at4 + 1), code(at + at4 + 2), code(at + at4 + 3)];
    SignedIsS32(f);
  }

  lemma JumpFits(code: Memory, at: Address, t: Address, b: seq<Byte>)
    requires Bounds(code, at).0 <= t <= Bounds(code, at).1 && 4 < |b| < 0x100 && at + |b| < TWO64
    requires forall k | 0 <= k < |b| :: b[k] == code(at + k)
    requires JumpsTo(code, at) == Some(Wrap(at + |b| + Displacement(code, at + (|b| - 4))))
    ensures Fits(Signed(b[|b| - 4..|b| - 4 + 4]) - Distance(t, at), 4)
  {
    DisplacementFits(code, at, t, |b|);
    FieldIs(code, at, b);
    Fits4(Displacement(code, at + (|b| - 4)) - Distance(t, at));
  }

  lemma Fits4(d: int)
    ensures Fits(d, 4) <==> Fits32(d)
  {
    assert Pow256(1) == 0x100 && Pow256(2) == 0x1_0000 && Pow256(3) == 0x100_0000 && Pow256(4) == TWO32;
  }

  /** A jump to, or through a pointer at, a distance of 32 bits. */
  predicate IsJump(b: seq<Byte>) {
    (|b| == 5 && b[0] == 0xe9) || (|b| == 6 && b[0] == 0xff && b[1] == 0x25)
  }

  lemma JumpIs(b: seq<Byte>)
    requires IsJump(b)
    ensures IsInstruction(b)
    ensures PlanOf(b) == Plan(0, By(if b[0] == 0xe9 then COPY5_TARGET else COPY2_MOD, NO_PREFIX))
  {
    var e := if b[0] == 0xe9 then COPY5_TARGET else COPY2_MOD;
    assert First(b[0]) == Opcode(e);
    assert ByEntry(b, e, NO_PREFIX) == Some(Plan(0, By(e, NO_PREFIX)));
    DecodeIsPlan(b, NO_PREFIX);
    assert b[0..] == b;
  }

  lemma JumpField(b: seq<Byte>)
    requires IsJump(b)
    ensures var e := if b[0] == 0xe9 then COPY5_TARGET else COPY2_MOD;
            Readable(e, b) && Field(e, NO_PREFIX, b) == Some((|b| - 4, 4))
  {
  }

  lemma JumpReaches(b: seq<Byte>, at: Address, t: Address)
    requires IsJump(b) && Fits(Signed(b[|b| - 4..|b| - 4 + 4]) - Distance(t, at), 4)
    ensures IsInstruction(b) && Reaches(b, at, t)
  {
    JumpIs(b);
    JumpField(b);
    assert b[0..] == b && Wrap(at + 0) == at && Wrap(t + 0) == t;
  }

  /** Where the bounds allow a trampoline, the copy of such a jump that the code begins with always reaches. */
  lemma FirstJumpReaches(code: Memory, at: Address, t: Address, b: seq<Byte>)
    requires Bounds(code, at).0 <= t <= Bounds(code, at).1 && at + |b| < TWO64 && IsJump(b)
    requires forall k | 0 <= k < |b| :: b[k] == code(at + k)
    ensures IsInstruction(b) && Reaches(b, at, t)
  {
    JumpsWhere(code, at, b);
    JumpFits(code, at, t, b);
    JumpReaches(b, at, t);
  }

  lemma JumpsWhere(code: Memory, at: Address, b: seq<Byte>)
    requires at + |b| < TWO64 && IsJump(b) && forall k | 0 <= k < |b| :: b[k] == code(at + k)
    ensures JumpsTo(code, at) == Some(Wrap(at + |b| + Displacement(code, at + (|b| - 4))))
  {
    assert code(at + 0) == b[0] && code(at + 1) == b[1];
    NoWrap(at + 1);
    NoWrap(at + 2);
  }

  lemma NoWrap(a: int)
    requires 0 <= a < TWO64
    ensures Wrap(a) == a
  {
  }
}
