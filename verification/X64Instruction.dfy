/** One x64 instruction: its copy, and what the copy denotes. */
module X64Instruction {
  import opened Prelude
  import opened Addresses
  import opened X64Copy
  import opened X64Decode

  const MAX_SIZE := 15

  /** Exactly the bytes of one instruction. */
  predicate IsInstruction(s: seq<Byte>) {
    var plan := Decode(s, NO_PREFIX);
    plan.Some? && IsPlan(plan.value, s) && PlanSize(plan.value, s) == |s| <= MAX_SIZE
  }

  function PlanOf(s: seq<Byte>): (plan: Plan)
    requires IsInstruction(s)
    ensures IsPlan(plan, s) && PlanSize(plan, s) == |s|
  {
    Decode(s, NO_PREFIX).value
  }

  /** Of code that goes on, what is decoded first is an instruction. */
  lemma FirstIsInstruction(code: seq<Byte>, n: nat)
    requires Takes(Decode(code, NO_PREFIX), code, n) && n == PlanSize(Decode(code, NO_PREFIX).value, code) <= MAX_SIZE
    ensures IsInstruction(code[..n]) && PlanOf(code[..n]) == Decode(code, NO_PREFIX).value
  {
    DecodeLocal(code, NO_PREFIX, n);
    DecodeIsPlan(code[..n], NO_PREFIX);
    SameSize(Decode(code, NO_PREFIX).value, code, n);
  }

  lemma SameSize(plan: Plan, code: seq<Byte>, n: nat)
    requires Takes(Some(plan), code, n) && IsPlan(plan, code[..n])
    ensures PlanSize(plan, code[..n]) == PlanSize(plan, code)
  {
    assert code[..n][plan.skip..] == code[plan.skip..][..n - plan.skip];
    SameCoreSize(plan.core, code[plan.skip..], n - plan.skip);
  }

  lemma SameCoreSize(core: Core, code: seq<Byte>, n: nat)
    requires n <= |code| && IsCore(core, code) && IsCore(core, code[..n])
    ensures CoreSize(core, code[..n]) == CoreSize(core, code)
  {
  }

  // ---- The copy, without prefixes ----

  /** What CopyBytes writes. */
  function CopyBy(e: Entry, p: Prefixes, code: seq<Byte>, src: Address, dst: Address): (out: seq<Byte>)
    requires Readable(e, code) && HasKnownField(e, p, code) && Size(e, p, code) <= |code|
    ensures |out| == Size(e, p, code)
  {
    var s := code[..Size(e, p, code)];
    match Field(e, p, code)
    case None => s
    case Some((at, n)) => Adjusted(s, src, dst, at, n)
  }

  /** By how much its copy would have to be longer, or, for those that cannot be, the opposite. */
  function ExtraBy(e: Entry, p: Prefixes, code: seq<Byte>, src: Address, dst: Address): int
    requires Readable(e, code) && HasKnownField(e, p, code) && Size(e, p, code) <= |code|
  {
    match Field(e, p, code)
    case None => 0
    case Some((at, n)) =>
      if Suits(Signed(code[at..at + n]) - Distance(dst, src), n) then 0
      else if e.noEnlarge then n - 4
      else 4 - n
  }

  /** What is written for code at `src`: nothing for a byte that is no opcode. */
  function CoreCopy(core: Core, code: seq<Byte>, src: Address, dst: Address): seq<Byte>
    requires IsCore(core, code)
  {
    match core
    case By(e, p) => CopyBy(e, p, code, src, dst)
    case Near => Widened(code[..2], src, dst)
    case Unknown => []
  }

  /** And by how many bytes it is said to be longer. */
  function CoreExtra(core: Core, code: seq<Byte>, src: Address, dst: Address): int
    requires IsCore(core, code)
  {
    match core
    case By(e, p) => ExtraBy(e, p, code, src, dst)
    case Near => Growth(code)
    case Unknown => 0
  }

  /** Code that goes on behind an instruction does not change its copy. */
  lemma CoreFirst(core: Core, code: seq<Byte>, n: nat, src: Address, dst: Address)
    requires IsCore(core, code) && n == CoreSize(core, code) && IsCore(core, code[..n])
    ensures CoreCopy(core, code[..n], src, dst) == CoreCopy(core, code, src, dst)
    ensures CoreExtra(core, code[..n], src, dst) == CoreExtra(core, code, src, dst)
  {
    if core.Near? {
      assert code[..n][..2] == code[..2];
    } else if core.By? {
      SameCoreSize(core, code, n);
      ByFirst(core.e, core.p, code, n, src, dst);
    }
  }

  lemma ByFirst(e: Entry, p: Prefixes, code: seq<Byte>, n: nat, src: Address, dst: Address)
    requires Readable(e, code) && HasKnownField(e, p, code) && n == Size(e, p, code) <= |code|
    requires Readable(e, code[..n]) && HasKnownField(e, p, code[..n]) && Size(e, p, code[..n]) == n
    ensures CopyBy(e, p, code[..n], src, dst) == CopyBy(e, p, code, src, dst)
    ensures ExtraBy(e, p, code[..n], src, dst) == ExtraBy(e, p, code, src, dst)
  {
    assert code[..n][..n] == code[..n];
    SameField(e, p, code, n);
    if Field(e, p, code).Some? {
      var (at, m) := Field(e, p, code).value;
      assert code[..n][at..at + m] == code[at..at + m];
    }
  }

  lemma SameField(e: Entry, p: Prefixes, code: seq<Byte>, n: nat)
    requires n <= |code| && Readable(e, code) && Readable(e, code[..n]) && Size(e, p, code[..n]) == Size(e, p, code)
    ensures Field(e, p, code[..n]) == Field(e, p, code)
  {
  }

  // ---- What it denotes ----

  /** The displacement in the copy is one that its field can hold; a byte that is no opcode has no copy. */
  predicate CoreReaches(core: Core, code: seq<Byte>, src: Address, dst: Address)
    requires IsCore(core, code)
  {
    match core
    case By(e, p) =>
      (match Field(e, p, code)
       case None => true
       case Some((at, n)) => Suits(Signed(code[at..at + n]) - Distance(dst, src), n))
    case Near => Fits(Signed(code[1..2]) - Growth(code) - Distance(dst, src), 4)
    case Unknown => false
  }

  /** `c` at `dst` is the instruction, with another displacement that denotes the same address, or the near jump with
      the condition and the target of a short one. */
  predicate CoreAgrees(core: Core, code: seq<Byte>, c: seq<Byte>, src: Address, dst: Address)
    requires IsCore(core, code)
  {
    match core
    case By(e, p) =>
      (match Field(e, p, code)
       case None => c == code
       case Some((at, n)) =>
         && |c| == |code| && c[..at] == code[..at] && c[at + n..] == code[at + n..]
         && Denotes(c, dst, at, n) == Denotes(code, src, at, n))
    case Near =>
      && |c| == 2 + Growth(code)
      && (if code[0] == 0xeb then c[0] == 0xe9 else c[0] == 0x0f && c[1] as int - 0x80 == code[0] as int - 0x70)
      && Denotes(c, dst, |c| - 4, 4) == Denotes(code[..2], src, 1, 1)
    case Unknown => false
  }

  lemma CoreCopyAgrees(core: Core, code: seq<Byte>, src: Address, dst: Address)
    requires IsCore(core, code) && CoreSize(core, code) == |code| < 0x100
    ensures CoreAgrees(core, code, CoreCopy(core, code, src, dst), src, dst) <==> CoreReaches(core, code, src, dst)
  {
    if core.Near? {
      assert code[..2] == code;
      WidenedDenotes(code, src, dst);
    } else if core.By? {
      assert code[..|code|] == code;
      if Field(core.e, core.p, code).Some? {
        AdjustedDenotes(code, src, dst, Field(core.e, core.p, code).value.0, Field(core.e, core.p, code).value.1);
      }
    }
  }

  // ---- How long it is ----

  predicate CoreCannotGrow(core: Core) {
    core.By? && core.e.noEnlarge
  }

  lemma CoreLength(core: Core, code: seq<Byte>, src: Address, dst: Address)
    requires IsCore(core, code)
    ensures CoreSize(core, code) + CoreExtra(core, code, src, dst) ==
            |CoreCopy(core, code, src, dst)| +
            if core.Unknown? then 1
            else if CoreCannotGrow(core) && !CoreReaches(core, code, src, dst) then -3
            else 0
  {
    if core.By? {
      EntryField(core.e, core.p, code);
    }
  }

  lemma EntryField(e: Entry, p: Prefixes, code: seq<Byte>)
    requires IsEntry(e) && Readable(e, code)
    ensures e.noEnlarge ==> Field(e, p, code) == Some((1, 1))
    ensures !e.noEnlarge && Field(e, p, code).Some? ==> Field(e, p, code).value.1 == 4
  {
    if IsMod(e) {
      ModFollowsFormat(e, p, code);
    } else if IsRelative(e) {
      RelativeFollowsFormat(e, p, code);
    }
  }

  // ---- With prefixes ----

  /** Prefixes are copied as they are, and what is behind them as if it stood alone; that is at `from`, and its copy
      at `to`. */
  function PlanCopy(plan: Plan, code: seq<Byte>, from: Address, to: Address): seq<Byte>
    requires IsPlan(plan, code)
  {
    code[..plan.skip] + CoreCopy(plan.core, code[plan.skip..], from, to)
  }

  function PlanExtra(plan: Plan, code: seq<Byte>, from: Address, to: Address): int
    requires IsPlan(plan, code)
  {
    CoreExtra(plan.core, code[plan.skip..], from, to)
  }

  lemma PlanBehind(k: nat, plan: Plan, code: seq<Byte>, from: Address, to: Address)
    requires k <= |code| && IsPlan(plan, code[k..])
    ensures IsPlan(Plan(k + plan.skip, plan.core), code)
    ensures PlanCopy(Plan(k + plan.skip, plan.core), code, from, to) == code[..k] + PlanCopy(plan, code[k..], from, to)
    ensures PlanExtra(Plan(k + plan.skip, plan.core), code, from, to) == PlanExtra(plan, code[k..], from, to)
  {
    BehindIsPlan(k, code, plan);
    var rest, skip := code[k..], k + plan.skip;
    assert rest[plan.skip..] == code[skip..] && code[..skip] == code[..k] + rest[..plan.skip];
    SumOfThree(code[..k], rest[..plan.skip], CoreCopy(plan.core, code[skip..], from, to));
  }

  lemma SumOfThree(a: seq<Byte>, b: seq<Byte>, c: seq<Byte>)
    ensures (a + b) + c == a + (b + c)
  {
  }

  lemma PlanFirst(plan: Plan, code: seq<Byte>, n: nat, from: Address, to: Address)
    requires IsPlan(plan, code) && n == PlanSize(plan, code) && IsPlan(plan, code[..n])
    ensures PlanCopy(plan, code[..n], from, to) == PlanCopy(plan, code, from, to)
    ensures PlanExtra(plan, code[..n], from, to) == PlanExtra(plan, code, from, to)
  {
    var rest, cut := code[plan.skip..], code[..n][plan.skip..];
    assert cut == rest[..n - plan.skip] && code[..n][..plan.skip] == code[..plan.skip];
    CoreFirst(plan.core, rest, n - plan.skip, from, to);
  }

  lemma PlanAgrees(plan: Plan, s: seq<Byte>, from: Address, to: Address)
    requires IsPlan(plan, s) && PlanSize(plan, s) == |s| < 0x100
    ensures var c := PlanCopy(plan, s, from, to);
            && c[..plan.skip] == s[..plan.skip]
            && (CoreAgrees(plan.core, s[plan.skip..], c[plan.skip..], from, to) <==>
                CoreReaches(plan.core, s[plan.skip..], from, to))
  {
    var rest := s[plan.skip..];
    assert PlanCopy(plan, s, from, to)[plan.skip..] == CoreCopy(plan.core, rest, from, to);
    CoreCopyAgrees(plan.core, rest, from, to);
  }

  // ---- Instructions ----

  /** Where what is behind the prefixes of an instruction at `a` is. */
  function Past(s: seq<Byte>, a: Address): Address
    requires IsInstruction(s)
  {
    Wrap(a + PlanOf(s).skip)
  }

  /** What DetourCopyInstruction writes to `dst` for the instruction `s` at `src`, and the extra bytes it asks for. */
  function CopyOf(s: seq<Byte>, src: Address, dst: Address): seq<Byte>
    requires IsInstruction(s)
  {
    PlanCopy(PlanOf(s), s, Past(s, src), Past(s, dst))
  }

  function Extra(s: seq<Byte>, src: Address, dst: Address): int
    requires IsInstruction(s)
  {
    PlanExtra(PlanOf(s), s, Past(s, src), Past(s, dst))
  }

  /** The displacement in the copy is one that its field can hold. */
  predicate Reaches(s: seq<Byte>, src: Address, dst: Address)
    requires IsInstruction(s)
  {
    CoreReaches(PlanOf(s).core, s[PlanOf(s).skip..], Past(s, src), Past(s, dst))
  }

  /** `c` at `dst` does what the instruction does: it has the same prefixes, and behind them the instruction, with a
      displacement that denotes the same address. */
  predicate Agrees(s: seq<Byte>, c: seq<Byte>, src: Address, dst: Address)
    requires IsInstruction(s)
  {
    var plan := PlanOf(s);
    && plan.skip <= |c| && c[..plan.skip] == s[..plan.skip]
    && CoreAgrees(plan.core, s[plan.skip..], c[plan.skip..], Past(s, src), Past(s, dst))
  }

  /** The copy does what the instruction does exactly if its displacement fits. */
  lemma CopyAgrees(s: seq<Byte>, src: Address, dst: Address)
    requires IsInstruction(s)
    ensures Agrees(s, CopyOf(s, src, dst), src, dst) <==> Reaches(s, src, dst)
  {
    PlanAgrees(PlanOf(s), s, Past(s, src), Past(s, dst));
  }

  /** LOOP, LOOPE, LOOPNE and JECXZ, which have no longer form. */
  predicate CannotGrow(s: seq<Byte>)
    requires IsInstruction(s)
  {
    CoreCannotGrow(PlanOf(s).core)
  }

  predicate IsUnknown(s: seq<Byte>)
    requires IsInstruction(s)
  {
    PlanOf(s).core.Unknown?
  }

  /** The next copy is put right behind this one, unless this one is of a jump that cannot reach and cannot grow, or
      of a byte that is no opcode. */
  lemma CopyLength(s: seq<Byte>, src: Address, dst: Address)
    requires IsInstruction(s)
    ensures |s| + Extra(s, src, dst) ==
            |CopyOf(s, src, dst)| +
            if IsUnknown(s) then 1 else if CannotGrow(s) && !Reaches(s, src, dst) then -3 else 0
  {
    CoreLength(PlanOf(s).core, s[PlanOf(s).skip..], Past(s, src), Past(s, dst));
  }

  // ---- Nothing else denotes the same ----

  lemma SignedFits(s: seq<Byte>)
    requires 0 < |s|
    ensures Fits(Signed(s), |s|)
  {
    Halves(|s|);
  }

  /** A displacement is fixed by what it denotes. */
  lemma OnlyDisplacement(src: Address, dst: Address, from: nat, to: nat, was: int, now: int)
    requires Wrap(dst + to + now) == Wrap(src + from + was) && from < 0x100 && to < 0x100
    requires -0x8000_0000 <= was < 0x8000_0000 && -0x8000_0000 <= now < 0x8000_0000
    ensures now == was + from - to - Distance(dst, src)
  {
    var c := DistanceIs(dst, src);
    var d := Distance(dst, src);
    WrapsSame(dst + to + now, src + from + was);
    NoMultiple(d + to + now - from - was, dst + to + now - (src + from + was), c);
  }

  lemma NoMultiple(x: int, y: int, c: int)
    requires x == y + c * TWO64 && y % TWO64 == 0 && -TWO64 < x < TWO64
    ensures x == 0
  {
    assert y == y / TWO64 * TWO64;
    assert x == (y / TWO64 + c) * TWO64;
  }

  lemma CoreAgreesReaches(core: Core, code: seq<Byte>, c: seq<Byte>, src: Address, dst: Address)
    requires IsCore(core, code) && CoreSize(core, code) == |code| < 0x80 && CoreAgrees(core, code, c, src, dst)
    ensures CoreReaches(core, code, src, dst)
  {
    if core.Near? {
      NearFixed(code, c, src, dst);
    } else if core.By? {
      EntryField(core.e, core.p, code);
      if Field(core.e, core.p, code).Some? {
        var (at, n) := Field(core.e, core.p, code).value;
        FieldFixed(code, c, src, dst, at, n);
      }
    }
  }

  lemma FieldFixed(code: seq<Byte>, c: seq<Byte>, src: Address, dst: Address, at: nat, n: nat)
    requires 0 < n <= 4 && at + n <= |code| == |c| < 0x80
    requires Denotes(c, dst, at, n) == Denotes(code, src, at, n)
    ensures Fits(Signed(code[at..at + n]) - Distance(dst, src), n)
  {
    FieldRange(code[at..at + n]);
    FieldRange(c[at..at + n]);
    OnlyDisplacement(src, dst, |code|, |c|, Signed(code[at..at + n]), Signed(c[at..at + n]));
    SignedFits(c[at..at + n]);
  }

  lemma NearFixed(code: seq<Byte>, c: seq<Byte>, src: Address, dst: Address)
    requires |code| == 2 && |c| == 2 + Growth(code)
    requires Denotes(c, dst, |c| - 4, 4) == Denotes(code[..2], src, 1, 1)
    ensures Fits(Signed(code[1..2]) - Growth(code) - Distance(dst, src), 4)
  {
    assert code[..2] == code;
    var was, now := code[1..2], c[|c| - 4..|c| - 4 + 4];
    FieldRange(was);
    FieldRange(now);
    OnlyDisplacement(src, dst, 2, |c|, Signed(was), Signed(now));
    SignedFits(now);
  }

  /** Whatever does what the instruction does shows that its displacement fits. */
  lemma AgreesReaches(s: seq<Byte>, c: seq<Byte>, src: Address, dst: Address)
    requires IsInstruction(s) && Agrees(s, c, src, dst)
    ensures Reaches(s, src, dst)
  {
    var plan := PlanOf(s);
    CoreAgreesReaches(plan.core, s[plan.skip..], c[plan.skip..], Past(s, src), Past(s, dst));
  }

  // ---- Writing ----

  /** A buffer with some bytes written at `at`. */
  function Over(buffer: seq<Byte>, at: nat, s: seq<Byte>): (r: seq<Byte>)
    requires at + |s| <= |buffer|
    ensures |r| == |buffer|
  {
    buffer[..at] + s + buffer[at + |s|..]
  }

  lemma OverTwice(buffer: seq<Byte>, at: nat, a: seq<Byte>, b: seq<Byte>)
    requires at + |a| + |b| <= |buffer|
    ensures Over(Over(buffer, at, a), at + |a|, b) == Over(buffer, at, a + b)
  {
  }

  /** Writing over what has been written. */
  lemma OverAgain(buffer: seq<Byte>, at: nat, a: seq<Byte>, b: seq<Byte>)
    requires at + |a| <= |buffer| && |a| == |b|
    ensures Over(Over(buffer, at, a), at, b) == Over(buffer, at, b)
  {
  }

  /** Writing into bytes that are there already. */
  lemma OverPart(buffer: seq<Byte>, pos: nat, s: seq<Byte>, at: nat, c: seq<Byte>)
    requires at + |c| <= |s| && pos + |s| <= |buffer| && buffer[pos..pos + |s|] == s
    ensures Over(buffer, pos + at, c) == Over(buffer, pos, s[..at] + c + s[at + |c|..])
  {
    assert buffer[..pos + at] == buffer[..pos] + s[..at];
    assert buffer[pos + at + |c|..] == s[at + |c|..] + buffer[pos + |s|..];
  }

  lemma AdjustedOver(buffer: seq<Byte>, pos: nat, code: seq<Byte>, src: Address, dst: Address, at: nat, n: nat,
                     now: int)
    requires at + n <= |code| && pos + |code| <= |buffer| && buffer[pos..pos + |code|] == code
    requires now == Signed(code[at..at + n]) - Distance(dst, src)
    ensures Over(buffer, pos + at, Low(now, n)) == Over(buffer, pos, Adjusted(code, src, dst, at, n))
  {
    OverPart(buffer, pos, code, at, Low(now, n));
  }

  lemma OverAt(buffer: seq<Byte>, at: nat, s: seq<Byte>)
    requires at + |s| <= |buffer|
    ensures Over(buffer, at, s)[at..at + |s|] == s
  {
  }
}
