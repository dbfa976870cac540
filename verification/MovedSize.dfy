/** How long the moved code is: it is the same wherever the trampoline is, and may be too much. */
module MovedSize {
  import opened Prelude
  import opened Addresses
  import opened DetourJump
  import opened X64Copy
  import opened X64Decode
  import opened X64Instruction
  import opened X64Moved
  import opened MovedCode

  const SIZE_OF_INDIRECT := 6

  /** The size of a copy: only short jumps grow. */
  function Grown(s: seq<Byte>): nat {
    |s| + if IsInstruction(s) && PlanOf(s).core.Near? then Growth(s[PlanOf(s).skip..]) else 0
  }

  /** The sizes of the first k together. */
  function Total(size: seq<Byte> -> nat, ss: seq<seq<Byte>>, k: nat): nat
    requires k <= |ss|
  {
    if k == 0 then 0 else Total(size, ss, k - 1) + size(ss[k - 1])
  }

  function GrownSize(ss: seq<seq<Byte>>): nat {
    Total(Grown, ss, |ss|)
  }

  /** All jumps can reach or can grow. */
  ghost predicate NoneDrops(b: Block)
    requires IsBlock(b)
  {
    forall k | 0 <= k < |b.sources| :: CannotGrow(b.sources[k]) ==> CopyReaches(b, k)
  }

  lemma CoreGrows(core: Core, code: seq<Byte>, src: Address, dst: Address)
    requires IsCore(core, code) && (CoreCannotGrow(core) ==> CoreReaches(core, code, src, dst))
    ensures CoreExtra(core, code, src, dst) == if core.Near? then Growth(code) else 0
    ensures |CoreCopy(core, code, src, dst)| <= CoreSize(core, code) + CoreExtra(core, code, src, dst)
  {
    CoreLength(core, code, src, dst);
    if core.By? {
      EntryField(core.e, core.p, code);
    }
  }

  lemma CopyGrows(s: seq<Byte>, src: Address, dst: Address)
    requires IsInstruction(s) && (CannotGrow(s) ==> Reaches(s, src, dst))
    ensures |s| + Extra(s, src, dst) == Grown(s) && |CopyOf(s, src, dst)| <= Grown(s)
  {
    CoreGrows(PlanOf(s).core, s[PlanOf(s).skip..], Past(s, src), Past(s, dst));
  }

  /** The next copy goes `g` bytes further on, and is no longer than that. */
  ghost predicate Grows(b: Block, k: nat, g: nat)
    requires k < |b.sources|
  {
    |b.sources[k]| + b.how.extra(b.sources[k], From(b, k), To(b, k)) == g && |Copy(b, k)| <= g
  }

  lemma TurnGrows(b: Block, k: nat)
    requires IsBlock(b) && NoneDrops(b) && k < |b.sources|
    ensures Grows(b, k, Grown(b.sources[k]))
  {
    CopyIs(b, k);
    CopyGrows(b.sources[k], From(b, k), To(b, k));
  }

  ghost predicate AllGrow(b: Block, size: seq<Byte> -> nat) {
    forall k {:trigger Grows(b, k, size(b.sources[k]))} | 0 <= k < |b.sources| ::
      Grows(b, k, size(b.sources[k]))
  }

  lemma {:induction false} PosIs(b: Block, size: seq<Byte> -> nat, k: nat)
    requires AllGrow(b, size) && k <= |b.sources|
    ensures Pos(b, k) == Total(size, b.sources, k)
  {
    if k > 0 {
      PosIs(b, size, k - 1);
      assert Grows(b, k - 1, size(b.sources[k - 1]));
    }
  }

  lemma {:induction false} ContainedUpTo(b: Block, size: seq<Byte> -> nat, k: nat)
    requires AllGrow(b, size) && k <= |b.sources| && Total(size, b.sources, k) <= CODE_SIZE
    ensures Contained(b, k)
  {
    if k > 0 {
      ContainedUpTo(b, size, k - 1);
      PosIs(b, size, k - 1);
      assert Grows(b, k - 1, size(b.sources[k - 1]));
    }
  }

  /** Unless a LOOP or JECXZ is too far from its target, the moved code has the same length wherever it is put, and is
      all in rbCode exactly if it has at most 30 bytes. */
  lemma ContainedIff(b: Block)
    requires IsBlock(b) && NoneDrops(b)
    ensures IsContained(b) <==> GrownSize(b.sources) <= CODE_SIZE
    ensures IsContained(b) ==> |Moved(b)| == GrownSize(b.sources)
  {
    forall k | 0 <= k < |b.sources|
      ensures Grows(b, k, Grown(b.sources[k]))
    {
      TurnGrows(b, k);
    }
    PosIs(b, Grown, |b.sources|);
    if GrownSize(b.sources) <= CODE_SIZE {
      ContainedUpTo(b, Grown, |b.sources|);
    }
  }

  // ---- Short copies always fit ----

  /** An instruction is moved only if those before it are too short for a jump. */
  lemma {:induction false} SourcesEarly(d: Disassembly, done: seq<seq<Byte>>, k: nat)
    requires |done| <= k < |Sources(d, done)|
    ensures Offset(Sources(d, done), k) < SIZE_OF_JMP
    decreases ALIGN_ENTRIES - |done|
  {
    if !IsEnough(d, done) {
      var all, more := Sources(d, done), done + [d.first(End(done))];
      if k > |done| {
        SourcesEarly(d, more, k);
      } else {
        SourcesStart(d, more);
        assert done <= all;
        OffsetStart(done, all, k);
      }
    }
  }

  lemma GrownLimit(s: seq<Byte>)
    ensures Grown(s) <= 3 * |s|
  {
  }

  lemma {:induction false} TotalLimit(size: seq<Byte> -> nat, ss: seq<seq<Byte>>, k: nat)
    requires k <= |ss| && forall s :: size(s) <= 3 * |s|
    ensures Total(size, ss, k) <= 3 * Offset(ss, k)
  {
    if k > 0 {
      TotalLimit(size, ss, k - 1);
    }
  }

  lemma TotalSnoc(size: seq<Byte> -> nat, ss: seq<seq<Byte>>, k: nat, n: nat)
    requires n == k + 1 <= |ss| && size(ss[k]) <= 12 && Total(size, ss, k) <= 12
    ensures Total(size, ss, n) <= 24
  {
  }

  lemma TotalFits(d: Disassembly, size: seq<Byte> -> nat, ss: seq<seq<Byte>>)
    requires ss == All(d) && forall s :: size(s) <= 3 * |s|
    requires forall k | 0 <= k < |ss| :: size(ss[k]) <= 12
    ensures Total(size, ss, |ss|) <= 24
  {
    if ss != [] {
      var k: nat := |ss| - 1;
      SourcesEarly(d, [], k);
      TotalLimit(size, ss, k);
      TotalSnoc(size, ss, k, |ss|);
    }
  }

  /** If no copy has more than 12 bytes, they fit into rbCode, and so does the jump behind them. */
  lemma ShortFits(d: Disassembly, b: Block)
    requires b.sources == All(d) && IsBlock(b) && NoneDrops(b)
    requires forall k | 0 <= k < |b.sources| :: Grown(b.sources[k]) <= 12
    ensures IsContained(b) && |Moved(b)| + SIZE_OF_INDIRECT <= CODE_SIZE
  {
    forall s
      ensures Grown(s) <= 3 * |s|
    {
      GrownLimit(s);
    }
    TotalFits(d, Grown, b.sources);
    ContainedIff(b);
  }

  // ---- Copies that are too long ----

  /** A conditional jump, which is short. */
  predicate IsCondition(window: seq<Byte>) {
    |window| == MAX_SIZE && 0x70 <= window[0] <= 0x7f
  }

  lemma ConditionIs(window: seq<Byte>, s: seq<Byte>)
    requires IsCondition(window) && s == window[..2]
    ensures FirstOf(window) == s && IsInstruction(s) && PlanOf(s) == Plan(0, Near) && !Ends(window)
  {
    assert First(window[0]) == ShortJump && window[0..] == window;
    assert Decode(window, NO_PREFIX) == Some(Plan(0, Near));
    FirstIsInstruction(window, 2);
  }

  /** The longest instruction there is: lock add qword ptr gs:[esp + disp32], imm32. */
  const LONG_OPCODE: seq<Byte> := [0x67, 0x65, 0xf0, 0x48, 0x81, 0x84, 0x24]

  predicate IsLong(window: seq<Byte>) {
    |window| == MAX_SIZE && LONG_OPCODE <= window
  }

  lemma OnePrefix(code: seq<Byte>, rest: seq<Byte>, b: Byte, p: Prefixes, q: Prefixes, skip: nat, core: Core)
    requires code != [] && b == code[0] && rest == code[1..] && First(b) == Prefix && q == Seen(p, b)
    requires Decode(rest, q) == Some(Plan(skip, core))
    ensures Decode(code, p) == Some(Plan(1 + skip, core))
  {
    DecodePrefix(code, rest, b, p);
  }

  lemma AddIs(code: seq<Byte>, p: Prefixes)
    requires |code| == 11 && LONG_OPCODE[4..] <= code && p.wide
    ensures Decode(code, p) == Some(Plan(0, By(COPY2_MOD_OPERAND, p)))
  {
    assert code[0] == 0x81 && code[1] == 0x84 && code[2] == 0x24;
  }

  lemma WideIs(code: seq<Byte>, p: Prefixes)
    requires |code| == 12 && LONG_OPCODE[3..] <= code
    ensures Decode(code, p) == Some(Plan(1, By(COPY2_MOD_OPERAND, p.(wide := true))))
  {
    assert code[0] == 0x48 && LONG_OPCODE[3..][1..] == LONG_OPCODE[4..];
    AddIs(code[1..], p.(wide := true));
    OnePrefix(code, code[1..], 0x48, p, p.(wide := true), 0, By(COPY2_MOD_OPERAND, p.(wide := true)));
  }

  lemma LockIs(code: seq<Byte>, p: Prefixes)
    requires |code| == 13 && LONG_OPCODE[2..] <= code
    ensures Decode(code, p) == Some(Plan(2, By(COPY2_MOD_OPERAND, p.(wide := true))))
  {
    assert code[0] == 0xf0 && LONG_OPCODE[2..][1..] == LONG_OPCODE[3..];
    WideIs(code[1..], p);
    OnePrefix(code, code[1..], 0xf0, p, p, 1, By(COPY2_MOD_OPERAND, p.(wide := true)));
  }

  lemma SegmentIs(code: seq<Byte>, p: Prefixes)
    requires |code| == 14 && LONG_OPCODE[1..] <= code
    ensures Decode(code, p) == Some(Plan(3, By(COPY2_MOD_OPERAND, p.(wide := true))))
  {
    assert code[0] == 0x65 && LONG_OPCODE[1..][1..] == LONG_OPCODE[2..];
    LockIs(code[1..], p);
    OnePrefix(code, code[1..], 0x65, p, p, 2, By(COPY2_MOD_OPERAND, p.(wide := true)));
  }

  lemma LongDecodes(code: seq<Byte>, p: Prefixes)
    requires IsLong(code)
    ensures Decode(code, p) == Some(Plan(4, By(COPY2_MOD_OPERAND, p.(addr := true, wide := true))))
  {
    assert code[0] == 0x67;
    SegmentIs(code[1..], p.(addr := true));
    OnePrefix(code, code[1..], 0x67, p, p.(addr := true), 3, By(COPY2_MOD_OPERAND, p.(addr := true, wide := true)));
  }

  lemma LongIs(window: seq<Byte>)
    requires IsLong(window)
    ensures FirstOf(window) == window && IsInstruction(window) && !PlanOf(window).core.Near? && !CannotGrow(window)
    ensures !Ends(window)
  {
    LongDecodes(window, NO_PREFIX);
    var plan := Plan(4, By(COPY2_MOD_OPERAND, Prefixes(false, true, true, false)));
    DecodeIsPlan(window, NO_PREFIX);
    LongSize(window, plan);
    FirstIsInstruction(window, |window|);
    assert window[..|window|] == window;
  }

  lemma LongSize(window: seq<Byte>, plan: Plan)
    requires IsLong(window) && plan == Plan(4, By(COPY2_MOD_OPERAND, Prefixes(false, true, true, false)))
    requires IsPlan(plan, window)
    ensures PlanSize(plan, window) == |window|
  {
  }

  /** Code that begins with two conditional jumps and such an instruction. */
  ghost predicate IsTooLong(code: Text) {
    IsCondition(Read(code, 0, MAX_SIZE)) && IsCondition(Read(code, 2, MAX_SIZE)) && IsLong(Read(code, 4, MAX_SIZE))
  }

  lemma EndSnoc(done: seq<seq<Byte>>, s: seq<Byte>)
    ensures End(done + [s]) == End(done) + |s|
  {
    OffsetSnoc(done, s, |done|);
  }

  /** They are moved, one behind the other. */
  lemma ThreeSources(d: Disassembly, a: seq<Byte>, b: seq<Byte>, c: seq<Byte>)
    requires |a| == 2 && |b| == 2 && |c| == MAX_SIZE && d.first(0) == a && d.first(2) == b && d.first(4) == c
    requires !d.ends(0) && !d.ends(2)
    ensures All(d) == [a, b, c] && TargetSize(d) == 19
  {
    EndSnoc([], a);
    EndSnoc([a], b);
    EndSnoc([a, b], c);
    OffsetSnoc([a], b, 1);
    assert [] + [a] == [a] && [a] + [b] == [a, b] && [a, b] + [c] == [a, b, c];
    assert Sources(d, [a, b, c]) == [a, b, c];
    assert Sources(d, [a, b]) == [a, b, c];
    assert Sources(d, [a]) == [a, b, c];
  }

  lemma TotalOfThree(size: seq<Byte> -> nat, a: seq<Byte>, b: seq<Byte>, c: seq<Byte>)
    requires size(a) == 6 && size(b) == 6 && size(c) == 15
    ensures Total(size, [a, b, c], 3) == 27
  {
    assert Total(size, [a, b, c], 1) == 6 && Total(size, [a, b, c], 2) == 12;
  }

  lemma TooLongIs(d: Disassembly, b: Block, x: seq<Byte>, y: seq<Byte>, z: seq<Byte>)
    requires |x| == 2 && |y| == 2 && |z| == MAX_SIZE && b.how == X64() && b.sources == [x, y, z] == All(d)
    requires IsInstruction(x) && IsInstruction(y) && IsInstruction(z) && Grown(x) == 6 && Grown(y) == 6 &&
             Grown(z) == 15
    requires !CannotGrow(x) && !CannotGrow(y) && !CannotGrow(z)
    ensures IsBlock(b) && IsContained(b) && |Moved(b)| == 27
  {
    TotalOfThree(Grown, x, y, z);
    ContainedIff(b);
  }

  /** What is known of the code at a place. */
  ghost predicate IsFirst(d: Disassembly, k: nat, s: seq<Byte>) {
    d.known(k) && d.first(k) == s && !d.ends(k)
  }

  lemma FirstIs(code: Text, k: nat, s: seq<Byte>)
    requires FirstOf(Read(code, k, MAX_SIZE)) == s != [] && !Ends(Read(code, k, MAX_SIZE))
    ensures IsFirst(Code(code), k, s)
  {
  }

  lemma ThreeKnown(d: Disassembly, x: seq<Byte>, y: seq<Byte>, z: seq<Byte>)
    requires IsFirst(d, 0, x) && IsFirst(d, 2, y) && IsFirst(d, 4, z) && |x| == 2 && |y| == 2 && |z| == MAX_SIZE
    ensures All(d) == [x, y, z] && TargetSize(d) == 19 && AreCode(d, All(d))
  {
    ThreeSources(d, x, y, z);
    assert Offset([x, y, z], 0) == 0 && Offset([x, y, z], 1) == 2 && Offset([x, y, z], 2) == 4;
  }

  /** Wherever such code is moved to, its copy is 27 bytes long. */
  lemma TooLong(code: Text, b: Block)
    requires IsTooLong(code) && b.how == X64() && b.sources == All(Code(code))
    ensures AreCode(Code(code), All(Code(code))) && TargetSize(Code(code)) == 19
    ensures IsBlock(b) && IsContained(b) && |Moved(b)| == 27
  {
    var x, y, z := Read(code, 0, MAX_SIZE)[..2], Read(code, 2, MAX_SIZE)[..2], Read(code, 4, MAX_SIZE);
    ConditionIs(Read(code, 0, MAX_SIZE), x);
    ConditionIs(Read(code, 2, MAX_SIZE), y);
    LongIs(z);
    FirstIs(code, 0, x);
    FirstIs(code, 2, y);
    FirstIs(code, 4, z);
    ThreeKnown(Code(code), x, y, z);
    TooLongIs(Code(code), b, x, y, z);
  }

  // ---- Copies that lose bytes ----

  lemma MovFirst(window: seq<Byte>)
    requires |window| == MAX_SIZE && MOV <= window
    ensures FirstOf(window) == MOV && !Ends(window)
  {
    var p := NO_PREFIX.(wide := true);
    var rest := window[1..];
    assert window[0] == 0x48 && rest[0] == 0x89 && rest[1] == 0xc8;
    RegisterIs(rest, p);
    OnePrefix(window, rest, 0x48, NO_PREFIX, p, 0, By(COPY2_MOD, p));
    DecodeIsPlan(window, NO_PREFIX);
    assert window[..3] == MOV;
  }

  lemma RegisterIs(code: seq<Byte>, p: Prefixes)
    requires 2 <= |code| && code[0] == 0x89 && code[1] == 0xc8
    ensures Decode(code, p) == Some(Plan(0, By(COPY2_MOD, p))) && Size(COPY2_MOD, p, code) == 2
  {
  }

  lemma LoopFirstOf(window: seq<Byte>)
    requires |window| == MAX_SIZE && LOOP <= window
    ensures FirstOf(window) == LOOP && !Ends(window)
  {
    assert window[0] == 0xe2 && window[0..] == window;
    assert Decode(window, NO_PREFIX) == Some(Plan(0, By(COPY2_CANT_JUMP, NO_PREFIX)));
    assert window[..2] == LOOP;
  }

  lemma TwoSources(d: Disassembly, x: seq<Byte>, y: seq<Byte>)
    requires IsFirst(d, 0, x) && IsFirst(d, 3, y) && |x| == 3 && |y| == 2
    ensures All(d) == [x, y] && TargetSize(d) == 5 && AreCode(d, All(d))
  {
    EndSnoc([], x);
    EndSnoc([x], y);
    OffsetSnoc([x], y, 1);
    assert [] + [x] == [x] && [x] + [y] == [x, y];
    assert Sources(d, [x, y]) == [x, y];
    assert Sources(d, [x]) == [x, y];
    assert Offset([x, y], 0) == 0 && Offset([x, y], 1) == 3;
  }

  /** Code that begins with a MOV and a LOOP, moved where the LOOP cannot reach: only two of the three bytes of the MOV
      are left. */
  lemma LoopLosesByte(code: Text, b: Block)
    requires Read(code, 0, 5) == MOV + LOOP && b.how == X64() && b.sources == All(Code(code))
    requires !(-0x80 <= 0x10 - Distance(b.dst, b.src) < 0x80)
    ensures AreCode(Code(code), All(Code(code))) && TargetSize(Code(code)) == 5
    ensures IsBlock(b) && IsContained(b) && Moved(b) == MOV[..2] && !Does(b, Moved(b), 0)
  {
    var w, v := Read(code, 0, MAX_SIZE), Read(code, 3, MAX_SIZE);
    assert w[..3] == Read(code, 0, 5)[..3] && v[..2] == Read(code, 0, 5)[3..];
    MovFirst(w);
    LoopFirstOf(v);
    FirstIs(code, 0, MOV);
    FirstIs(code, 3, LOOP);
    TwoSources(Code(code), MOV, LOOP);
    LoopDrops(b);
  }
}
