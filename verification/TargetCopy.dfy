/** The loops of DetourAttachEx over the code of a target: its instructions are copied into rbCode.
    A clause `P() == true` is proved as one fact, and not conjunct by conjunct, which keeps the proofs quick. */
module TargetCopy {
  import opened Prelude
  import opened Addresses
  import opened DetourJump
  import opened X64Copy
  import opened X64Decode
  import opened X64Instruction
  import opened X64Copier
  import opened X64Moved
  import opened MovedCode

  /** The instructions of a target, moved to a trampoline. */
  ghost function BlockOf(code: Text, target: Address, t: Address): Block {
    Block(X64(), All(Code(code)), target, t)
  }

  /** They are instructions, and rbCode has room for their copies. */
  ghost predicate CanCopy(code: Text, target: Address, t: Address) {
    AreCode(Code(code), All(Code(code))) && IsContained(BlockOf(code, target, t))
  }

  /** The address k bytes further on. */
  function Ahead(a: Address, k: int): Address {
    Wrap(a + k)
  }

  /** The state of the first loop. */
  ghost predicate Copied(d: Disassembly, b: Block, done: seq<seq<Byte>>, out: seq<Byte>, cb: nat, pos: int) {
    && Sources(d, done) == b.sources && done <= b.sources && cb == End(done)
    && pos == Pos(b, |done|) && Contained(b, |done|) && out == Buffer(b, |done|)
  }

  /** There is room for the next copy. */
  lemma NextFits(b: Block, k: nat, n: nat)
    requires n == k + 1 <= |b.sources| && IsContained(b)
    ensures 0 <= Pos(b, k) && Pos(b, k) + |Copy(b, k)| <= CODE_SIZE
  {
    ContainedBefore(b, n, |b.sources|);
  }

  /** What the next turn copies, and where to. */
  lemma NextTurn(d: Disassembly, b: Block, done: seq<seq<Byte>>, cb: nat, k: nat)
    requires Sources(d, done) == b.sources && done <= b.sources && cb == End(done) && !IsEnough(d, done) && k == |done|
    ensures k < |b.sources| && b.sources[k] == d.first(cb) && Offset(b.sources, k) == cb
  {
    SourcesMore(d, done, b.sources);
    OffsetStart(done, b.sources, k);
  }

  lemma SourcesDone(d: Disassembly, all: seq<seq<Byte>>, done: seq<seq<Byte>>, cb: nat, s: seq<Byte>, k: nat)
    requires Sources(d, done) == all && cb == End(done) && !IsEnough(d, done) && s == d.first(cb) && k == |done|
    ensures Sources(d, done + [s]) == all && done + [s] <= all && cb + |s| == End(done + [s])
  {
    SourcesMore(d, done, all);
    OffsetSnoc(done, s, k);
    assert Offset(done + [s], k + 1) == cb + |s|;
  }

  lemma PosDone(b: Block, pos: int, k: nat, n: nat)
    requires n == k + 1 <= |b.sources| && pos == Pos(b, k)
    ensures Pos(b, n) == pos + |b.sources[k]| + b.how.extra(b.sources[k], From(b, k), To(b, k))
  {
  }

  lemma BufferDone(b: Block, was: seq<Byte>, out: seq<Byte>, pos: int, k: nat, n: nat)
    requires n == k + 1 <= |b.sources| && pos == Pos(b, k) && Contained(b, k) && was == Buffer(b, k)
    requires 0 <= pos && pos + |Copy(b, k)| <= CODE_SIZE && out == Over(was, pos, Copy(b, k))
    ensures Contained(b, n) && out == Buffer(b, n)
  {
  }

  lemma TurnDone(d: Disassembly, b: Block, done: seq<seq<Byte>>, was: seq<Byte>, out: seq<Byte>, cb: nat, pos: int,
                 s: seq<Byte>, k: nat)
    requires Copied(d, b, done, was, cb, pos) && !IsEnough(d, done) && k == |done| < |b.sources|
    requires b.sources[k] == s == d.first(cb)
    requires 0 <= pos && pos + |Copy(b, k)| <= CODE_SIZE && out == Over(was, pos, Copy(b, k))
    ensures Copied(d, b, done + [s], out, cb + |s|, pos + |s| + b.how.extra(s, From(b, k), To(b, k)))
  {
    SourcesDone(d, b.sources, done, cb, s, k);
    PosDone(b, pos, k, |done + [s]|);
    BufferDone(b, was, out, pos, k, |done + [s]|);
  }

  lemma WhereIs(b: Block, k: nat, cb: nat, pos: int)
    requires k <= |b.sources| && Offset(b.sources, k) == cb && Pos(b, k) == pos
    ensures From(b, k) == Ahead(b.src, cb) && To(b, k) == Ahead(b.dst, pos)
  {
  }

  /** The code begins with the instruction s. */
  ghost predicate BeginsWith(window: seq<Byte>, plan: Plan, s: seq<Byte>) {
    && Decode(window, NO_PREFIX) == Some(plan) && IsPlan(plan, window) && PlanSize(plan, window) == |s|
    && s == window[..|s|] && IsInstruction(s) && PlanOf(s) == plan
  }

  lemma FirstIs(window: seq<Byte>, s: seq<Byte>, n: nat)
    requires |window| == MAX_SIZE && s == FirstOf(window) && n == |s| > 0
    ensures Decode(window, NO_PREFIX).Some? && BeginsWith(window, Decode(window, NO_PREFIX).value, s)
  {
    DecodeIsPlan(window, NO_PREFIX);
    FirstIsInstruction(window, n);
  }

  /** How that is copied. */
  ghost predicate IsNext(window: seq<Byte>, plan: Plan, from: Address, to: Address, s: seq<Byte>, copy: seq<Byte>,
                         extra: int) {
    && Decode(window, NO_PREFIX) == Some(plan) && IsPlan(plan, window) && PlanSize(plan, window) == |s|
    && PlanCopy(plan, window, from, to) == copy && PlanExtra(plan, window, from, to) == extra
  }

  lemma PastIs(s: seq<Byte>, plan: Plan, a: Address)
    requires IsInstruction(s) && PlanOf(s) == plan
    ensures Past(s, a) == Wrap(a + plan.skip)
  {
  }

  lemma CopyOfPlan(s: seq<Byte>, plan: Plan, src: Address, dst: Address)
    requires IsInstruction(s) && PlanOf(s) == plan
    ensures CopyOf(s, src, dst) == PlanCopy(plan, s, Past(s, src), Past(s, dst))
    ensures Extra(s, src, dst) == PlanExtra(plan, s, Past(s, src), Past(s, dst))
  {
  }

  lemma NextIs(window: seq<Byte>, plan: Plan, s: seq<Byte>, n: nat, src: Address, dst: Address, from: Address,
               to: Address)
    requires BeginsWith(window, plan, s) && n == |s| && from == Past(s, src) && to == Past(s, dst)
    ensures IsNext(window, plan, from, to, s, CopyOf(s, src, dst), Extra(s, src, dst))
    ensures IsAhead(src, plan.skip, from) && IsAhead(dst, plan.skip, to)
  {
    PlanFirst(plan, window, n, from, to);
    CopyOfPlan(s, plan, src, dst);
    PastIs(s, plan, src);
    PastIs(s, plan, dst);
    AheadIff(src, plan.skip, from);
    AheadIff(dst, plan.skip, to);
  }

  /** DetourCopyInstruction. */
  method CopyNext(window: seq<Byte>, out: array<Byte>, src: Address, dst: Address, pos: nat, ghost plan: Plan,
                  ghost from: Address, ghost to: Address, ghost s: seq<Byte>, ghost copy: seq<Byte>, ghost more: int)
    returns (size: nat, extra: int)
    requires IsNext(window, plan, from, to, s, copy, more) && pos + |copy| <= out.Length
    requires IsAhead(src, plan.skip, from) && IsAhead(dst, plan.skip, to)
    modifies out
    ensures size == |s| && extra == more && out[..] == Over(old(out[..]), pos, copy)
  {
    var copier := new Copier(out);
    size := copier.CopyInstruction(NO_PREFIX, dst, src, window, pos, plan, from, to);
    extra := copier.extra;
  }

  method CopyFirst(window: seq<Byte>, out: array<Byte>, src: Address, dst: Address, pos: nat, ghost s: seq<Byte>)
    returns (size: nat, extra: int)
    requires |window| == MAX_SIZE && s == FirstOf(window) != []
    requires IsInstruction(s) && pos + |CopyOf(s, src, dst)| <= out.Length
    modifies out
    ensures size == |s| && extra == Extra(s, src, dst) && out[..] == Over(old(out[..]), pos, CopyOf(s, src, dst))
  {
    FirstIs(window, s, |s|);
    ghost var plan := Decode(window, NO_PREFIX).value;
    NextIs(window, plan, s, |s|, src, dst, Past(s, src), Past(s, dst));
    size, extra := CopyNext(window, out, src, dst, pos, plan, Past(s, src), Past(s, dst), s, CopyOf(s, src, dst),
                            Extra(s, src, dst));
  }

  /** The next instruction of a block, and where it is copied to. */
  ghost predicate IsTurn(b: Block, k: nat, s: seq<Byte>, src: Address, dst: Address, pos: int) {
    && k < |b.sources| && b.sources[k] == s && s != [] && IsInstruction(s)
    && 0 <= pos && pos + |CopyOf(s, src, dst)| <= CODE_SIZE
    && Copy(b, k) == CopyOf(s, src, dst) && b.how.extra(s, From(b, k), To(b, k)) == Extra(s, src, dst)
  }

  lemma TurnIs(d: Disassembly, b: Block, done: seq<seq<Byte>>, out: seq<Byte>, cb: nat, pos: int, k: nat, src: Address,
               dst: Address)
    requires Copied(d, b, done, out, cb, pos) && !IsEnough(d, done) && k == |done|
    requires IsBlock(b) && IsContained(b) && src == Ahead(b.src, cb) && dst == Ahead(b.dst, pos)
    ensures IsTurn(b, k, d.first(cb), src, dst, pos) && |out| == CODE_SIZE
  {
    NextTurn(d, b, done, cb, k);
    NextFits(b, k, k + 1);
    WhereIs(b, k, cb, pos);
    CopyIs(b, k);
  }

  lemma TurnEnds(d: Disassembly, b: Block, done: seq<seq<Byte>>, was: seq<Byte>, out: seq<Byte>, cb: nat, pos: int,
                 k: nat, s: seq<Byte>, src: Address, dst: Address)
    requires Copied(d, b, done, was, cb, pos) && !IsEnough(d, done) && k == |done| && IsContained(b) && s == d.first(cb)
    requires IsTurn(b, k, s, src, dst, pos) && out == Over(was, pos, CopyOf(s, src, dst))
    ensures Copied(d, b, done + [s], out, cb + |s|, pos + |s| + Extra(s, src, dst))
  {
    TurnDone(d, b, done, was, out, cb, pos, s, k);
  }

  lemma EnoughThen(d: Disassembly, done: seq<seq<Byte>>, s: seq<Byte>, cb: nat, k: nat)
    requires cb == End(done) && k == |done|
    ensures IsEnough(d, done + [s]) <==> cb + |s| >= SIZE_OF_JMP || k + 1 >= ALIGN_ENTRIES || d.ends(cb)
  {
    OffsetSnoc(done, s, k);
    assert Offset(done + [s], k + 1) == cb + |s|;
  }

  /** One turn of the first loop. */
  method CopyTurn(window: seq<Byte>, out: array<Byte>, src: Address, dst: Address, ghost cb: nat, pos: int,
                  ghost d: Disassembly, ghost b: Block, ghost done: seq<seq<Byte>>)
    returns (size: nat, extra: int)
    requires Copied(d, b, done, out[..], cb, pos) == true && !IsEnough(d, done) == true
    requires IsBlock(b) == true && IsContained(b) == true && src == Ahead(b.src, cb) && dst == Ahead(b.dst, pos)
    requires IsThere(d, cb, window) == true
    modifies out
    ensures Copied(d, b, done + [d.first(cb)], out[..], cb + size, pos + size + extra) == true
    ensures IsEnough(d, done + [d.first(cb)]) ==
            (cb + size >= SIZE_OF_JMP || |done| + 1 >= ALIGN_ENTRIES || Ends(window))
  {
    ghost var was, s := out[..], d.first(cb);
    TurnIs(d, b, done, was, cb, pos, |done|, src, dst);
    size, extra := CopyFirst(window, out, src, dst, pos, s);
    TurnEnds(d, b, done, was, out[..], cb, pos, |done|, s, src, dst);
    EnoughThen(d, done, s, cb, |done|);
  }

  lemma AllAreBlock(code: Text, target: Address, t: Address)
    requires CanCopy(code, target, t)
    ensures IsBlock(BlockOf(code, target, t))
  {
    var ss := All(Code(code));
    AllRun(Code(code));
    forall k | 0 <= k < |ss|
      ensures IsInstruction(ss[k])
    {
      AreInstructions(code, ss, k);
    }
  }

  lemma NoneCopied(d: Disassembly, b: Block, out: seq<Byte>)
    requires b.sources == All(d) && out == seq(CODE_SIZE, _ => BREAK)
    ensures Copied(d, b, [], out, 0, 0) && !IsEnough(d, [])
  {
  }

  lemma AllCopied(d: Disassembly, b: Block, done: seq<seq<Byte>>, out: seq<Byte>, cb: nat, pos: int)
    requires Copied(d, b, done, out, cb, pos) && IsEnough(d, done) && IsContained(b)
    ensures cb == End(b.sources) && 0 <= pos <= |out| && out[..pos] == Moved(b)
  {
  }

  /** rbCode, as it is in a trampoline that has just been handed out. */
  method NewCode() returns (out: array<Byte>)
    ensures fresh(out) && out[..] == seq(CODE_SIZE, _ => BREAK)
  {
    out := new Byte[CODE_SIZE](_ => BREAK);
  }

  /** What the disassembly says of some place is in the code there. */
  ghost predicate IsThere(d: Disassembly, cb: nat, window: seq<Byte>) {
    |window| == MAX_SIZE && d.first(cb) == FirstOf(window) && d.ends(cb) == Ends(window)
  }

  lemma CodeIsThere(code: Text, cb: nat)
    ensures IsThere(Code(code), cb, Read(code, cb, MAX_SIZE))
  {
  }

  /** A turn of the first loop, and whether it is the last. */
  method Turn(code: Text, out: array<Byte>, src: Address, dst: Address, cb: nat, pos: int, n: nat,
              ghost d: Disassembly, ghost b: Block, ghost done: seq<seq<Byte>>)
    returns (size: nat, extra: int, last: bool)
    requires Copied(d, b, done, out[..], cb, pos) == true && !IsEnough(d, done) == true && n == |done|
    requires IsBlock(b) == true && IsContained(b) == true && src == Ahead(b.src, cb) && dst == Ahead(b.dst, pos)
    requires IsThere(d, cb, Read(code, cb, MAX_SIZE)) == true
    modifies out
    ensures Copied(d, b, done + [d.first(cb)], out[..], cb + size, pos + size + extra) == true
    ensures last ==> IsEnough(d, done + [d.first(cb)]) == true
    ensures !last ==> IsEnough(d, done + [d.first(cb)]) == (cb + size >= SIZE_OF_JMP)
    ensures !last ==> n + 1 < ALIGN_ENTRIES
  {
    var window := Read(code, cb, MAX_SIZE);
    size, extra := CopyTurn(window, out, src, dst, cb, pos, d, b, done);
    last := n + 1 >= ALIGN_ENTRIES || Ends(window);
  }

  /** The first loop: the instructions of the target, in rbCode. */
  method CopyAll(code: Text, target: Address, t: Address, ghost d: Disassembly, ghost b: Block)
    returns (cb: nat, moved: seq<Byte>)
    requires d == Code(code) && b.sources == All(d) && b.src == target && b.dst == t
    requires IsBlock(b) == true && IsContained(b) == true
    ensures cb == End(All(d)) && moved == Moved(b)
  {
    ghost var done: seq<seq<Byte>> := [];
    var out := NewCode();
    NoneCopied(d, b, out[..]);
    var pos: int, n := 0, 0;
    cb := 0;
    while cb < SIZE_OF_JMP
      invariant Copied(d, b, done, out[..], cb, pos) == true && n == |done|
      invariant IsEnough(d, done) == (cb >= SIZE_OF_JMP)
      invariant fresh(out)
      decreases ALIGN_ENTRIES - n
    {
      CodeIsThere(code, cb);
      var size, extra, last := Turn(code, out, Ahead(target, cb), Ahead(t, pos), cb, pos, n, d, b, done);
      done := done + [d.first(cb)];
      cb, pos, n := cb + size, pos + size + extra, n + 1;
      if last {
        break;
      }
    }
    AllCopied(d, b, done, out[..], cb, pos);
    moved := out[..pos];
  }

  lemma FillersThere(code: Text)
    ensures forall k: nat {:trigger IsFiller(Code(code), code, k)} :: IsFiller(Code(code), code, k)
  {
  }

  method FillerAt(code: Text, cb: nat, ghost d: Disassembly) returns (n: nat)
    requires forall k: nat {:trigger IsFiller(d, code, k)} :: IsFiller(d, code, k)
    ensures n == d.filler(cb)
  {
    assert IsFiller(d, code, cb);
    n := FillerOf(Read(code, cb, MAX_SIZE));
  }

  /** And the second, over padding behind it: how much is replaced. */
  method Consume(code: Text, start: nat, ghost d: Disassembly) returns (cb: nat)
    requires forall k: nat {:trigger IsFiller(d, code, k)} :: IsFiller(d, code, k)
    ensures cb == Padding(d, start)
  {
    cb := start;
    while cb < SIZE_OF_JMP
      invariant Padding(d, cb) == Padding(d, start)
      decreases SIZE_OF_JMP - cb
    {
      var filler := FillerAt(code, cb, d);
      if filler == 0 {
        break;
      }
      cb := cb + filler;
    }
  }

  /** Both. */
  method CopyTarget(code: Text, target: Address, t: Address) returns (cb: nat, moved: seq<Byte>)
    requires CanCopy(code, target, t)
    ensures cb == TargetSize(Code(code)) && moved == Moved(BlockOf(code, target, t))
  {
    AllAreBlock(code, target, t);
    cb, moved := CopyAll(code, target, t, Code(code), BlockOf(code, target, t));
    FillersThere(code);
    cb := Consume(code, cb, Code(code));
  }
}
