/** CDetourDis for x64, as far as copying goes. */
module X64Copier {
  import opened Prelude
  import opened Addresses
  import opened X64Copy
  import opened X64Decode
  import opened X64Instruction

  /** The buffer, the target found, and the bytes by which a copy is longer than its original. */
  class Copier {
    const out: array<Byte>
    var target: Option<Address>
    var extra: int

    constructor (out: array<Byte>)
      ensures this.out == out && target == None && extra == 0
    {
      this.out := out;
      target, extra := None, 0;
    }

    /** CopyMemory. */
    method CopyMemory(s: seq<Byte>, at: nat)
      requires at + |s| <= out.Length
      modifies out
      ensures out[..] == Over(old(out[..]), at, s)
    {
      for i := 0 to |s|
        invariant out[..at + i] == old(out[..at]) + s[..i]
        invariant out[at + i..] == old(out[at + i..])
      {
        out[at + i] := s[i];
      }
      assert s[..|s|] == s;
      assert out[..] == out[..at + |s|] + out[at + |s|..];
    }

    /** The new displacement, written to the copy. */
    method WriteField(code: seq<Byte>, dst: Address, src: Address, at: nat, n: nat, pos: nat) returns (now: int)
      requires at + n <= |code| && pos + |code| <= out.Length && out[pos..pos + |code|] == code
      modifies out
      ensures now == Signed(code[at..at + n]) - Distance(dst, src)
      ensures out[..] == Over(old(out[..]), pos, Adjusted(code, src, dst, at, n))
    {
      now := Signed(code[at..at + n]) - Distance(dst, src);
      AdjustedOver(out[..], pos, code, src, dst, at, n, now);
      CopyMemory(Low(now, n), pos + at);
    }

    /** AdjustTarget: the target of the field, and the field adjusted in the copy, which is at `pos` in the buffer. */
    method AdjustTarget(code: seq<Byte>, dst: Address, src: Address, at: nat, n: nat, pos: nat)
      requires IsKnown(n) && at + n <= |code| && pos + |code| <= out.Length && out[pos..pos + |code|] == code
      modifies `target, `extra, out
      ensures out[..] == Over(old(out[..]), pos, Adjusted(code, src, dst, at, n))
      ensures target == Some(Denotes(code, src, at, n))
      ensures extra == if Suits(Signed(code[at..at + n]) - Distance(dst, src), n) then old(extra) else 4 - n
    {
      var now := WriteField(code, dst, src, at, n, pos);
      target := Some(Denotes(code, src, at, n));
      if !Suits(now, n) {
        extra := 4 - n;
      }
    }

    /** CopyBytes, for any entry whose relative field, if it has one, is one that AdjustTarget knows. A data target
        is not returned. */
    method CopyBytes(e: Entry, p: Prefixes, dst: Address, src: Address, code: seq<Byte>, pos: nat) returns (size: nat)
      requires Readable(e, code) && HasKnownField(e, p, code) && Size(e, p, code) <= |code|
      requires pos + Size(e, p, code) <= out.Length && extra == 0
      modifies this, out
      ensures size == Size(e, p, code)
      ensures out[..] == Over(old(out[..]), pos, CopyBy(e, p, code, src, dst))
      ensures extra == ExtraBy(e, p, code, src, dst)
      ensures target == match Field(e, p, code)
                        case None => old(target)
                        case Some((at, n)) =>
                          if e.relOffset == 0 then None else Some(Denotes(code[..Size(e, p, code)], src, at, n))
    {
      size := Size(e, p, code);
      var s := code[..size];
      CopyMemory(s, pos);
      var field := Field(e, p, code);
      if field.Some? {
        var (at, n) := field.value;
        SliceOfPrefix(code, s, at, at + n);
        OverAt(old(out[..]), pos, s);
        OverAgain(old(out[..]), pos, s, Adjusted(s, src, dst, at, n));
        AdjustTarget(s, dst, src, at, n, pos);
        if e.relOffset == 0 {
          target := None;
        }
      }
      if e.noEnlarge {
        extra := -extra;
      }
    }

    /** CopyBytesJump. */
    method CopyBytesJump(dst: Address, src: Address, code: seq<Byte>, pos: nat) returns (size: nat)
      requires 2 <= |code| && IsShortJump(code[..2]) && pos + |Widened(code[..2], src, dst)| <= out.Length
      modifies this, out
      ensures size == 2 && extra == Growth(code)
      ensures out[..] == Over(old(out[..]), pos, Widened(code[..2], src, dst))
      ensures target == Some(Denotes(code[..2], src, 1, 1))
    {
      var jump := code[..2];
      target := Some(Denotes(jump, src, 1, 1));
      size := 2;
      var opcode;
      if jump[0] == 0xeb {
        opcode, extra := [0xe9], 3;
      } else {
        opcode, extra := [0x0f, 0x80 + jump[0] % 0x10], 4;
      }
      CopyMemory(opcode + Low(Signed(jump[1..2]) - (Distance(dst, src) + extra), 4), pos);
    }

    /** CopyInstruction on code at `src` that is copied to `dst`, which is at `pos` in the buffer; for a byte that is no
        opcode nothing is written. What is behind the prefixes is at `from`, and its copy at `to`. */
    method CopyInstruction(p: Prefixes, dst: Address, src: Address, code: seq<Byte>, pos: nat, ghost plan: Plan,
                           ghost from: Address, ghost to: Address)
      returns (size: nat)
      requires Decode(code, p) == Some(plan) && IsPlan(plan, code)
      requires IsAhead(src, plan.skip, from) && IsAhead(dst, plan.skip, to)
      requires pos + |PlanCopy(plan, code, from, to)| <= out.Length && extra == 0
      modifies this, out
      ensures size == PlanSize(plan, code) && extra == PlanExtra(plan, code, from, to)
      ensures out[..] == Over(old(out[..]), pos, PlanCopy(plan, code, from, to))
      decreases |code|, 1
    {
      var kind := First(code[0]);
      if kind == Prefix {
        size := CopyBytesPrefix(p, dst, src, code, pos, plan, from, to);
      } else {
        size := CopyKind(kind, p, dst, src, code, pos, plan, from, to);
      }
    }

    /** CopyBytesPrefix, and those that note the prefix before. */
    method CopyBytesPrefix(p: Prefixes, dst: Address, src: Address, code: seq<Byte>, pos: nat, ghost plan: Plan,
                           ghost from: Address, ghost to: Address)
      returns (size: nat)
      requires code != [] && Behind(1, Decode(code[1..], Seen(p, code[0]))) == Some(plan) && IsPlan(plan, code)
      requires IsAhead(src, plan.skip, from) && IsAhead(dst, plan.skip, to)
      requires pos + |PlanCopy(plan, code, from, to)| <= out.Length && extra == 0
      modifies this, out
      ensures size == PlanSize(plan, code) && extra == PlanExtra(plan, code, from, to)
      ensures out[..] == Over(old(out[..]), pos, PlanCopy(plan, code, from, to))
      decreases |code|, 0
    {
      ghost var rest := BehindPrefix(Seen(p, code[0]), code, plan);
      var more := code[1..];
      Apart(1, rest, plan, code, more, src, dst, from, to, out[..], pos);
      CopyMemory(code[..1], pos);
      size := CopyInstruction(Seen(p, code[0]), Wrap(dst + 1), Wrap(src + 1), more, pos + 1, rest, from, to);
      size := size + 1;
    }

    /** What the first table calls for any other byte. */
    method CopyKind(kind: Kind, p: Prefixes, dst: Address, src: Address, code: seq<Byte>, pos: nat, ghost plan: Plan,
                    ghost from: Address, ghost to: Address)
      returns (size: nat)
      requires code != [] && kind != Prefix && DecodeKind(kind, code, p) == Some(plan) && IsPlan(plan, code)
      requires IsAhead(src, plan.skip, from) && IsAhead(dst, plan.skip, to)
      requires pos + |PlanCopy(plan, code, from, to)| <= out.Length && extra == 0
      modifies this, out
      ensures size == PlanSize(plan, code) && extra == PlanExtra(plan, code, from, to)
      ensures out[..] == Over(old(out[..]), pos, PlanCopy(plan, code, from, to))
    {
      if kind == Escape {
        size := Copy0F(p, dst, src, code, pos, plan, from, to);
      } else if kind == Vex2 {
        size := CopyVex(2, 1, code[1], p, dst, src, code, pos, plan, from, to);
      } else if kind == Vex3 {
        size := CopyVex(3, code[1] % 0x20, code[2], p.(wide := p.wide || code[2] >= 0x80), dst, src, code, pos, plan,
                        from, to);
      } else {
        NoneAhead(src, from);
        NoneAhead(dst, to);
        size := CopyCore(kind, p, dst, src, code, pos, plan);
      }
    }

    /** What has no more prefixes. */
    method CopyCore(kind: Kind, p: Prefixes, dst: Address, src: Address, code: seq<Byte>, pos: nat, ghost plan: Plan)
      returns (size: nat)
      requires code != [] && !(kind in {Prefix, Escape, Vex2, Vex3})
      requires DecodeKind(kind, code, p) == Some(plan) && IsPlan(plan, code)
      requires pos + |PlanCopy(plan, code, src, dst)| <= out.Length && extra == 0
      modifies this, out
      ensures size == PlanSize(plan, code) && extra == PlanExtra(plan, code, src, dst)
      ensures out[..] == Over(old(out[..]), pos, PlanCopy(plan, code, src, dst))
    {
      assert code[0..] == code;
      NoSkip(plan.core, code, src, dst);
      if kind.Opcode? {
        size := CopyBytes(kind.e, p, dst, src, code, pos);
      } else if kind == ShortJump {
        size := CopyBytesJump(dst, src, code, pos);
      } else if kind == ByteTest {
        size := CopyBytes(if IsTest(code[1]) then COPY2_MOD1 else COPY2_MOD, p, dst, src, code, pos);
      } else if kind == WordTest {
        size := CopyBytes(if IsTest(code[1]) then COPY2_MOD_OPERAND else COPY2_MOD, p, dst, src, code, pos);
      } else {
        size := 1;
      }
    }

    /** Copy0F. */
    method Copy0F(p: Prefixes, dst: Address, src: Address, code: seq<Byte>, pos: nat, ghost plan: Plan,
                  ghost from: Address, ghost to: Address)
      returns (size: nat)
      requires code != [] && Behind(1, DecodeSecond(code[1..], p)) == Some(plan) && IsPlan(plan, code)
      requires IsAhead(src, plan.skip, from) && IsAhead(dst, plan.skip, to)
      requires pos + |PlanCopy(plan, code, from, to)| <= out.Length && extra == 0
      modifies this, out
      ensures size == PlanSize(plan, code) && extra == PlanExtra(plan, code, from, to)
      ensures out[..] == Over(old(out[..]), pos, PlanCopy(plan, code, from, to))
    {
      ghost var rest := Plan(plan.skip - 1, plan.core);
      SecondIsPlan(code[1..], p);
      Apart(1, rest, plan, code, code[1..], src, dst, from, to, out[..], pos);
      CopyMemory(code[..1], pos);
      size := CopySecond(p, Wrap(dst + 1), Wrap(src + 1), code[1..], pos + 1, rest);
      size := size + 1;
    }

    /** CopyVex2 and CopyVex3, whose prefix has k bytes. */
    method CopyVex(k: nat, m: nat, last: Byte, p: Prefixes, dst: Address, src: Address, code: seq<Byte>, pos: nat,
                   ghost plan: Plan, ghost from: Address, ghost to: Address)
      returns (size: nat)
      requires k < |code| && Behind(k, DecodeVex(m, last, code[k..], p)) == Some(plan) && IsPlan(plan, code)
      requires IsAhead(src, plan.skip, from) && IsAhead(dst, plan.skip, to)
      requires pos + |PlanCopy(plan, code, from, to)| <= out.Length && extra == 0
      modifies this, out
      ensures size == PlanSize(plan, code) && extra == PlanExtra(plan, code, from, to)
      ensures out[..] == Over(old(out[..]), pos, PlanCopy(plan, code, from, to))
    {
      ghost var rest := Plan(plan.skip - k, plan.core);
      VexIsPlan(m, last, code[k..], p);
      Apart(k, rest, plan, code, code[k..], src, dst, from, to, out[..], pos);
      CopyMemory(code[..k], pos);
      size := CopyVexCommon(m, last, p, Wrap(dst + k), Wrap(src + k), code[k..], pos + k, rest);
      size := size + k;
    }

    /** CopyVexCommon. */
    method CopyVexCommon(m: nat, last: Byte, p: Prefixes, dst: Address, src: Address, code: seq<Byte>, pos: nat,
                         ghost plan: Plan)
      returns (size: nat)
      requires DecodeVex(m, last, code, p) == Some(plan) && IsPlan(plan, code)
      requires pos + |PlanCopy(plan, code, src, dst)| <= out.Length && extra == 0
      modifies this, out
      ensures size == PlanSize(plan, code) && extra == PlanExtra(plan, code, src, dst)
      ensures out[..] == Over(old(out[..]), pos, PlanCopy(plan, code, src, dst))
    {
      var q := if last % 4 == 1 then p.(operand := true) else if last % 4 == 3 then p.(repne := true) else p;
      if m == 1 {
        size := CopySecond(q, dst, src, code, pos, plan);
      } else {
        assert code[0..] == code;
        NoSkip(plan.core, code, src, dst);
        if m == 2 || m == 3 {
          size := CopyBytes(if m == 2 then COPY2_MOD else COPY2_MOD1, q, dst, src, code, pos);
        } else {
          size := 1;
        }
      }
    }

    /** Copy0F, behind the escape, and Copy0F78. */
    method CopySecond(p: Prefixes, dst: Address, src: Address, code: seq<Byte>, pos: nat, ghost plan: Plan)
      returns (size: nat)
      requires DecodeSecond(code, p) == Some(plan) && IsPlan(plan, code)
      requires pos + |PlanCopy(plan, code, src, dst)| <= out.Length && extra == 0
      modifies this, out
      ensures size == PlanSize(plan, code) && extra == PlanExtra(plan, code, src, dst)
      ensures out[..] == Over(old(out[..]), pos, PlanCopy(plan, code, src, dst))
    {
      NoSkip(plan.core, code, src, dst);
      var kind := Second(code[0]);
      if kind.Opcode? {
        size := CopyBytes(kind.e, p, dst, src, code, pos);
      } else if kind == Extract {
        size := CopyBytes(if p.repne || p.operand then COPY4 else COPY2_MOD, p, dst, src, code, pos);
      } else {
        size := 1;
      }
    }
  }

  lemma BehindPrefix(p: Prefixes, code: seq<Byte>, plan: Plan) returns (rest: Plan)
    requires code != [] && Behind(1, Decode(code[1..], p)) == Some(plan)
    ensures Decode(code[1..], p) == Some(rest) && IsPlan(rest, code[1..]) && plan == Plan(1 + rest.skip, rest.core)
  {
    rest := Decode(code[1..], p).value;
    DecodeIsPlan(code[1..], p);
  }

  lemma NoSkip(core: Core, code: seq<Byte>, src: Address, dst: Address)
    requires code != [] && IsCore(core, code)
    ensures IsPlan(Plan(0, core), code) && PlanSize(Plan(0, core), code) == CoreSize(core, code)
    ensures PlanCopy(Plan(0, core), code, src, dst) == CoreCopy(core, code, src, dst)
    ensures PlanExtra(Plan(0, core), code, src, dst) == CoreExtra(core, code, src, dst)
  {
    assert code[0..] == code && code[..0] == [];
  }

  /** The first bytes of the prefixes can be copied apart. */
  lemma Apart(k: nat, plan: Plan, whole: Plan, code: seq<Byte>, more: seq<Byte>, src: Address, dst: Address,
              from: Address, to: Address, buffer: seq<Byte>, pos: nat)
    requires k <= |code| && more == code[k..] && IsPlan(plan, more) && whole == Plan(k + plan.skip, plan.core)
    requires IsAhead(src, k + plan.skip, from) && IsAhead(dst, k + plan.skip, to)
    requires IsPlan(whole, code) && pos + |PlanCopy(whole, code, from, to)| <= |buffer|
    ensures IsAhead(Wrap(src + k), plan.skip, from) && IsAhead(Wrap(dst + k), plan.skip, to)
    ensures plan.skip == 0 ==> from == Wrap(src + k) && to == Wrap(dst + k)
    ensures PlanSize(whole, code) == k + PlanSize(plan, more)
    ensures PlanExtra(whole, code, from, to) == PlanExtra(plan, more, from, to)
    ensures |PlanCopy(whole, code, from, to)| == k + |PlanCopy(plan, more, from, to)|
    ensures Over(Over(buffer, pos, code[..k]), pos + k, PlanCopy(plan, more, from, to)) ==
            Over(buffer, pos, PlanCopy(whole, code, from, to))
  {
    LessAhead(src, k, plan.skip, from);
    LessAhead(dst, k, plan.skip, to);
    BehindIsPlan(k, code, plan);
    PlanBehind(k, plan, code, from, to);
    OverTwice(buffer, pos, code[..k], PlanCopy(plan, more, from, to));
  }
}
