/** How much of a target DetourAttachEx moves: whole instructions, and padding behind them. */
module MovedCode {
  import opened Prelude
  import opened Addresses
  import opened DetourJump
  import opened X64Decode
  import opened X64Instruction
  import opened X64Moved

  const ALIGN_ENTRIES := 8

  /** The bytes of code, from a target on. */
  type Text = nat -> Byte

  function TextAt(mem: Memory, target: Address): Text {
    (k: nat) => mem(Wrap(target + k))
  }

  /** What there is some bytes behind a target: whether an instruction of 15 bytes at most begins there, its bytes,
      whether it ends a function, and the size of padding. */
  datatype Disassembly = Disassembly(known: nat -> bool, first: nat -> seq<Byte>, ends: nat -> bool,
                                     filler: nat -> nat)

  /** The next bytes of code. */
  function Read(code: Text, k: nat, n: nat): (s: seq<Byte>)
    ensures |s| == n && forall i | 0 <= i < n :: s[i] == code(k + i)
  {
    seq<Byte>(n, i requires 0 <= i < n => code(k + i))
  }

  /** The instruction that code begins with. */
  function FirstOf(code: seq<Byte>): (s: seq<Byte>)
    ensures s == [] || |code| > MAX_SIZE || IsInstruction(s)
    ensures |s| <= |code| && s == code[..|s|]
  {
    var plan := Decode(code, NO_PREFIX);
    if plan.None? then []
    else
      DecodeIsPlan(code, NO_PREFIX);
      var n := PlanSize(plan.value, code);
      assert n <= MAX_SIZE ==> IsInstruction(code[..n]) by {
        if n <= MAX_SIZE {
          FirstIsInstruction(code, n);
        }
      }
      code[..n]
  }

  /** detour_does_code_end_function. */
  predicate Ends(code: seq<Byte>)
    requires 3 <= |code|
  {
    || code[0] in {0xeb, 0xe9, 0xe0, 0xc2, 0xc3, 0xcc}
    || (code[0] == 0xf3 && code[1] == 0xc3)
    || (code[0] == 0xff && code[1] == 0x25)
    || (code[0] in {0x26, 0x2e, 0x36, 0x3e, 0x64, 0x65} && code[1] == 0xff && code[2] == 0x25)
  }

  /** detour_is_code_filler. */
  function FillerOf(code: seq<Byte>): nat {
    if [0x90] <= code then 1
    else if [0x66, 0x90] <= code then 2
    else if [0x0f, 0x1f, 0x00] <= code then 3
    else if [0x0f, 0x1f, 0x40, 0] <= code then 4
    else if [0x0f, 0x1f, 0x44, 0, 0] <= code then 5
    else if [0x66, 0x0f, 0x1f, 0x44, 0, 0] <= code then 6
    else if [0x0f, 0x1f, 0x80, 0, 0, 0, 0] <= code then 7
    else if [0x0f, 0x1f, 0x84, 0, 0, 0, 0, 0] <= code then 8
    else if [0x66, 0x0f, 0x1f, 0x84, 0, 0, 0, 0, 0] <= code then 9
    else if [0x66, 0x66, 0x0f, 0x1f, 0x84, 0, 0, 0, 0, 0] <= code then 10
    else if [0x66, 0x66, 0x66, 0x0f, 0x1f, 0x84, 0, 0, 0, 0, 0] <= code then 11
    else if [0xcc] <= code then 1
    else 0
  }

  /** Only the bytes of the padding count. */
  lemma FillerLocal(w: seq<Byte>, s: seq<Byte>)
    requires 0 < FillerOf(w) <= |s| && forall i | 0 <= i < |w| && i < |s| :: s[i] == w[i]
    requires 11 <= |w|
    ensures FillerOf(s) == FillerOf(w)
  {
  }

  lemma FillerSize(code: seq<Byte>)
    ensures FillerOf(code) <= 11
  {
  }

  function Code(code: Text): Disassembly {
    Disassembly((k: nat) => FirstOf(Read(code, k, MAX_SIZE)) != [], (k: nat) => FirstOf(Read(code, k, MAX_SIZE)),
                (k: nat) => Ends(Read(code, k, MAX_SIZE)), (k: nat) => FillerOf(Read(code, k, MAX_SIZE)))
  }

  // ---- What is moved ----

  /** Where the next instruction is. */
  function End(done: seq<seq<Byte>>): nat {
    Offset(done, |done|)
  }

  /** The last one ends a function. */
  predicate Ended(d: Disassembly, done: seq<seq<Byte>>) {
    done != [] && d.ends(Offset(done, |done| - 1))
  }

  predicate IsEnough(d: Disassembly, done: seq<seq<Byte>>) {
    End(done) >= SIZE_OF_JMP || |done| >= ALIGN_ENTRIES || Ended(d, done)
  }

  /** Behind some instructions, whole ones, until there is room for a jump, or no more can be moved. */
  function Sources(d: Disassembly, done: seq<seq<Byte>>): seq<seq<Byte>>
    decreases ALIGN_ENTRIES - |done|
  {
    if IsEnough(d, done) then done else Sources(d, done + [d.first(End(done))])
  }

  /** All that is moved. */
  function All(d: Disassembly): seq<seq<Byte>> {
    Sources(d, [])
  }

  /** And padding behind it, if there is still no room. */
  function Padding(d: Disassembly, cb: nat): nat
    decreases SIZE_OF_JMP - cb
  {
    if cb >= SIZE_OF_JMP || d.filler(cb) == 0 then cb else Padding(d, cb + d.filler(cb))
  }

  /** The bytes of a target that a detour replaces. */
  function TargetSize(d: Disassembly): nat {
    Padding(d, End(All(d)))
  }

  /** What is to be moved are instructions. */
  ghost predicate AreCode(d: Disassembly, ss: seq<seq<Byte>>) {
    forall k {:trigger ss[k]} | 0 <= k < |ss| :: d.known(Offset(ss, k))
  }

  // ---- It is what is at the target ----

  /** What is there already stays. */
  lemma {:induction false} SourcesStart(d: Disassembly, done: seq<seq<Byte>>)
    ensures done <= Sources(d, done)
    decreases ALIGN_ENTRIES - |done|
  {
    if !IsEnough(d, done) {
      SourcesStart(d, done + [d.first(End(done))]);
    }
  }

  /** One more instruction. */
  lemma SourcesMore(d: Disassembly, done: seq<seq<Byte>>, all: seq<seq<Byte>>)
    requires Sources(d, done) == all && !IsEnough(d, done)
    ensures |done| < |all| && done + [all[|done|]] <= all && Sources(d, done + [all[|done|]]) == all
    ensures all[|done|] == d.first(End(done))
  {
    SourcesStart(d, done + [d.first(End(done))]);
  }

  /** Each instruction is what there is behind those before it. */
  ghost predicate IsRun(d: Disassembly, ss: seq<seq<Byte>>) {
    forall k {:trigger ss[k]} | 0 <= k < |ss| :: ss[k] == d.first(Offset(ss, k))
  }

  lemma OffsetSnoc(ss: seq<seq<Byte>>, s: seq<Byte>, k: nat)
    requires k <= |ss|
    ensures Offset(ss + [s], k) == Offset(ss, k)
  {
    OffsetStart(ss, ss + [s], k);
  }

  lemma RunMore(d: Disassembly, ss: seq<seq<Byte>>)
    requires IsRun(d, ss)
    ensures IsRun(d, ss + [d.first(End(ss))])
  {
    var s := d.first(End(ss));
    forall k | 0 <= k <= |ss|
      ensures (ss + [s])[k] == d.first(Offset(ss + [s], k))
    {
      OffsetSnoc(ss, s, k);
    }
  }

  lemma {:induction false} SourcesRun(d: Disassembly, done: seq<seq<Byte>>)
    requires IsRun(d, done)
    ensures IsRun(d, Sources(d, done))
    decreases ALIGN_ENTRIES - |done|
  {
    if !IsEnough(d, done) {
      RunMore(d, done);
      SourcesRun(d, done + [d.first(End(done))]);
    }
  }

  lemma AllRun(d: Disassembly)
    ensures IsRun(d, All(d))
  {
    SourcesRun(d, []);
  }

  lemma KnownIsInstruction(code: Text, k: nat)
    requires Code(code).known(k)
    ensures IsInstruction(Code(code).first(k))
  {
  }

  lemma RunAt(d: Disassembly, ss: seq<seq<Byte>>, k: nat)
    requires IsRun(d, ss) && AreCode(d, ss) && k < |ss|
    ensures ss[k] == d.first(Offset(ss, k)) && d.known(Offset(ss, k))
  {
    assert ss[k] == d.first(Offset(ss, k));
  }

  /** All of them are instructions. */
  lemma AreInstructions(code: Text, ss: seq<seq<Byte>>, k: nat)
    requires IsRun(Code(code), ss) && AreCode(Code(code), ss) && k < |ss|
    ensures IsInstruction(ss[k])
  {
    RunAt(Code(code), ss, k);
    KnownIsInstruction(code, Offset(ss, k));
  }

  ghost predicate IsRead(d: Disassembly, code: Text, k: nat) {
    d.first(k) == Read(code, k, |d.first(k)|) && |d.first(k)| <= MAX_SIZE
  }

  lemma FirstRead(code: Text, k: nat)
    ensures IsRead(Code(code), code, k)
  {
  }

  lemma ReadMore(code: Text, k: nat, n: nat, m: nat)
    ensures Read(code, k, n + m) == Read(code, k, n) + Read(code, k + n, m)
  {
  }

  lemma JoinedSnoc(ss: seq<seq<Byte>>, k: nat, n: nat)
    requires n == k + 1 <= |ss|
    ensures Joined(ss[..n]) == Joined(ss[..k]) + ss[k] && Offset(ss, n) == Offset(ss, k) + |ss[k]|
  {
    assert ss[..n][..k] == ss[..k];
  }

  lemma OneRead(d: Disassembly, code: Text, zero: nat, at: nat, before: seq<Byte>, s: seq<Byte>)
    requires zero == 0 && s == d.first(at) && IsRead(d, code, at) && before == Read(code, zero, at)
    ensures before + s == Read(code, zero, at + |s|)
  {
    assert zero + at == at;
    ReadMore(code, zero, at, |s|);
  }

  /** Put together, they are all there is at the target. */
  lemma {:induction false} RunRead(d: Disassembly, code: Text, zero: nat, ss: seq<seq<Byte>>, n: nat)
    requires zero == 0 && n <= |ss| && IsRun(d, ss)
    requires forall k: nat {:trigger IsRead(d, code, k)} :: IsRead(d, code, k)
    ensures Joined(ss[..n]) == Read(code, zero, Offset(ss, n))
  {
    if n > 0 {
      var k: nat := n - 1;
      RunRead(d, code, zero, ss, k);
      JoinedSnoc(ss, k, n);
      assert ss[k] == d.first(Offset(ss, k));
      OneRead(d, code, zero, Offset(ss, k), Joined(ss[..k]), ss[k]);
    }
  }

  lemma AllRead(code: Text)
    ensures Joined(All(Code(code))) == Read(code, 0, End(All(Code(code))))
  {
    forall k: nat
      ensures IsRead(Code(code), code, k)
    {
      FirstRead(code, k);
    }
    AllRun(Code(code));
    RunRead(Code(code), code, 0, All(Code(code)), |All(Code(code))|);
    assert All(Code(code))[..|All(Code(code))|] == All(Code(code));
  }

  // ---- It is never too much ----

  /** Instructions of at most 15 bytes and padding in pieces of at most 11. */
  ghost predicate Limited(d: Disassembly) {
    (forall k: nat :: |d.first(k)| <= MAX_SIZE) && (forall k: nat :: d.filler(k) <= 11)
  }

  lemma CodeLimited(code: Text)
    ensures Limited(Code(code))
  {
    forall k: nat
      ensures |Code(code).first(k)| <= MAX_SIZE && Code(code).filler(k) <= 11
    {
      FirstRead(code, k);
      FillerSize(Read(code, k, MAX_SIZE));
    }
  }

  lemma {:induction false} SourcesFit(d: Disassembly, done: seq<seq<Byte>>)
    requires Limited(d) && End(done) <= 19
    ensures End(Sources(d, done)) <= 19
    decreases ALIGN_ENTRIES - |done|
  {
    if !IsEnough(d, done) {
      var s := d.first(End(done));
      OffsetSnoc(done, s, |done|);
      SourcesFit(d, done + [s]);
    }
  }

  lemma {:induction false} PaddingFits(d: Disassembly, cb: nat)
    requires Limited(d) && cb <= 19
    ensures cb <= Padding(d, cb) <= 19
    decreases SIZE_OF_JMP - cb
  {
    if cb < SIZE_OF_JMP && d.filler(cb) != 0 {
      PaddingFits(d, cb + d.filler(cb));
    }
  }

  /** Whatever the code is, what a detour replaces is never too much to be saved. */
  lemma TargetFits(code: Text)
    ensures TargetSize(Code(code)) <= CODE_SIZE - SIZE_OF_JMP
  {
    CodeLimited(code);
    SourcesFit(Code(code), []);
    PaddingFits(Code(code), End(All(Code(code))));
  }

  // ---- Behind the instructions there is padding only ----

  predicate IsPadding(s: seq<Byte>)
    decreases |s|
  {
    s == [] || (0 < FillerOf(s) <= |s| && IsPadding(s[FillerOf(s)..]))
  }

  ghost predicate IsFiller(d: Disassembly, code: Text, k: nat) {
    d.filler(k) == FillerOf(Read(code, k, MAX_SIZE))
  }

  /** The bytes that padding consists of. */
  function PaddingAt(d: Disassembly, code: Text, cb: nat): (s: seq<Byte>)
    decreases SIZE_OF_JMP - cb
  {
    if cb >= SIZE_OF_JMP || d.filler(cb) == 0 then []
    else Read(code, cb, d.filler(cb)) + PaddingAt(d, code, cb + d.filler(cb))
  }

  lemma {:induction false} PaddingIs(d: Disassembly, code: Text, cb: nat)
    requires forall k: nat {:trigger IsFiller(d, code, k)} :: IsFiller(d, code, k)
    ensures Padding(d, cb) == cb + |PaddingAt(d, code, cb)|
    ensures PaddingAt(d, code, cb) == Read(code, cb, |PaddingAt(d, code, cb)|)
    ensures IsPadding(PaddingAt(d, code, cb))
    decreases SIZE_OF_JMP - cb
  {
    if cb < SIZE_OF_JMP && d.filler(cb) != 0 {
      PaddingIs(d, code, cb + d.filler(cb));
      PaddingMore(d, code, cb, PaddingAt(d, code, cb + d.filler(cb)));
    }
  }

  lemma FillerRead(d: Disassembly, code: Text, cb: nat, m: nat)
    requires forall k: nat {:trigger IsFiller(d, code, k)} :: IsFiller(d, code, k)
    requires 0 < d.filler(cb) <= m
    ensures FillerOf(Read(code, cb, m)) == d.filler(cb)
  {
    assert IsFiller(d, code, cb);
    FillerLocal(Read(code, cb, MAX_SIZE), Read(code, cb, m));
  }

  lemma PaddingMore(d: Disassembly, code: Text, cb: nat, rest: seq<Byte>)
    requires forall k: nat {:trigger IsFiller(d, code, k)} :: IsFiller(d, code, k)
    requires 0 < d.filler(cb) && IsPadding(rest) && rest == Read(code, cb + d.filler(cb), |rest|)
    ensures var s := Read(code, cb, d.filler(cb)) + rest; IsPadding(s) && s == Read(code, cb, |s|)
  {
    var whole := Read(code, cb, d.filler(cb) + |rest|);
    FillerRead(d, code, cb, |whole|);
    ReadMore(code, cb, d.filler(cb), |rest|);
    PaddingCons(Read(code, cb, d.filler(cb)), rest, whole);
  }

  lemma PaddingCons(first: seq<Byte>, rest: seq<Byte>, whole: seq<Byte>)
    requires whole == first + rest && 0 < FillerOf(whole) == |first| && IsPadding(rest)
    ensures IsPadding(first + rest)
  {
    assert (first + rest)[|first|..] == rest;
  }

  /** What a detour replaces is what is moved, and padding. */
  lemma PaddingRead(code: Text)
    ensures var d := Code(code);
            var cb := End(All(d));
            cb <= TargetSize(d) && IsPadding(Read(code, cb, TargetSize(d) - cb))
  {
    forall k: nat
      ensures IsFiller(Code(code), code, k)
    {
    }
    PaddingIs(Code(code), code, End(All(Code(code))));
  }
}
