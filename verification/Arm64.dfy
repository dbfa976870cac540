/** The A64 instructions that the code rewriter decodes or emits: their encoding and what one step of
    each does (Arm ARM DDI 0487, section C6.2). */
module Arm64 {
  import opened Prelude
  import opened Addresses

  type Word = w: int | 0 <= w < 0x1_0000_0000

  /** `v` of a field of `size` values as a two's complement number. */
  function Signed(v: nat, size: nat): int {
    if 2 * v < size then v else v - size
  }

  /** The test of a conditional branch: on the flags, on a register being zero, on a register's bit.
      `nz` branches when the register, or the bit, is not zero. */
  datatype Test =
    | Flags(cond: nat)
    | Zero(size: nat, nz: nat, rt: nat)
    | Bit(size: nat, nz: nat, rt: nat, bit: nat)

  /** Instructions; displacements in bytes. */
  datatype Instruction =
    | Branch(test: Test, imm: int)
    | B(link: nat, imm: int)
    | Br(rn: nat)
    | Mov(size: nat, kind: nat, rd: nat, imm16: nat, shift: nat)
    | Other

  /** What a word means: B.cond 01010100 imm19 0 cond, B and BL link 00101 imm26, CBZ and CBNZ
      size 011010 nz imm19 Rt, TBZ and TBNZ size 011011 nz bit imm14 Rt, BR 1101011000011111000000 Rn 00000,
      MOVN, MOVZ and MOVK size kind 100101 shift imm16 Rd. */
  function Decode(w: Word): Instruction {
    if w / 0x100_0000 == 0x54 && w / 0x10 % 2 == 0 then
      Branch(Flags(w % 0x10), 4 * Signed(w / 0x20 % 0x8_0000, 0x8_0000))
    else if w / 0x400_0000 % 0x20 == 0x05 then
      B(w / 0x8000_0000, 4 * Signed(w % 0x400_0000, 0x400_0000))
    else if w / 0x200_0000 % 0x40 == 0x1a then
      Branch(Zero(w / 0x8000_0000, w / 0x100_0000 % 2, w % 0x20), 4 * Signed(w / 0x20 % 0x8_0000, 0x8_0000))
    else if w / 0x200_0000 % 0x40 == 0x1b then
      Branch(Bit(w / 0x8000_0000, w / 0x100_0000 % 2, w % 0x20, w / 0x8_0000 % 0x20),
             4 * Signed(w / 0x20 % 0x4000, 0x4000))
    else if w / 0x400 == 0x3587c0 && w % 0x20 == 0 then
      Br(w / 0x20 % 0x20)
    else if w / 0x80_0000 % 0x40 == 0x25 then
      Mov(w / 0x8000_0000, w / 0x2000_0000 % 4, w % 0x20, w / 0x20 % 0x1_0000, w / 0x20_0000 % 4)
    else Other
  }

  /** A processor: program counter, x0 to x30, and the condition flags. */
  datatype Cpu = Cpu(pc: Address, x: seq<Address>, n: bool, z: bool, c: bool, v: bool)

  ghost predicate IsCpu(s: Cpu) {
    |s.x| == 31
  }

  /** Register 31 reads as zero. */
  function Reg(s: Cpu, r: nat): Address {
    if r < |s.x| then s.x[r] else 0
  }

  /** And is not written. */
  function SetReg(s: Cpu, r: nat, v: Address): Cpu {
    if r < |s.x| then s.(x := s.x[r := v]) else s
  }

  function CondHolds(cond: nat, s: Cpu): bool {
    var base :=
      match cond / 2
      case 0 => s.z
      case 1 => s.c
      case 2 => s.n
      case 3 => s.v
      case 4 => s.c && !s.z
      case 5 => s.n == s.v
      case 6 => s.n == s.v && !s.z
      case _ => true;
    if cond % 2 == 1 && cond != 15 then !base else base
  }

  function Pow2(n: nat): (r: nat)
    ensures 0 < r
  {
    if n == 0 then 1 else 2 * Pow2(n - 1)
  }

  function Holds(t: Test, s: Cpu): bool {
    match t
    case Flags(cond) => CondHolds(cond, s)
    case Zero(size, nz, rt) =>
      var v := if size == 0 then Reg(s, rt) % TWO32 else Reg(s, rt);
      if nz == 0 then v == 0 else v != 0
    case Bit(size, nz, rt, bit) =>
      Reg(s, rt) / Pow2(32 * size + bit) % 2 == (if nz == 0 then 0 else 1)
  }

  function Plus(a: int, d: int): Address {
    (a + d) % TWO64
  }

  /** The factor of a 16-bit piece of a register. */
  function Unit(shift: nat): (u: nat)
    ensures 0 < u <= 0x1_0000_0000_0000
  {
    match shift
    case 0 => 1
    case 1 => 0x1_0000
    case 2 => 0x1_0000_0000
    case _ => 0x1_0000_0000_0000
  }

  /** The value a move leaves in a register that held `was`: MOVN the complement, MOVZ the piece alone,
      MOVK the piece amid the old ones. */
  function Moved(size: nat, kind: nat, imm16: nat, shift: nat, was: Address): Option<Address> {
    if imm16 >= 0x1_0000 || shift > 3 || (size == 0 && shift > 1) then None
    else if kind == 0 then Some((if size == 0 then TWO32 else TWO64) - 1 - imm16 * Unit(shift))
    else if kind == 2 then Some(imm16 * Unit(shift))
    else if kind == 3 && size != 0 then Some((was + (imm16 - was / Unit(shift) % 0x1_0000) * Unit(shift)) % TWO64)
    else None
  }

  /** One instruction. */
  function Step(w: Word, s: Cpu): Option<Cpu> {
    match Decode(w)
    case Branch(t, imm) => Some(s.(pc := if Holds(t, s) then Plus(s.pc, imm) else Plus(s.pc, 4)))
    case B(link, imm) =>
      var t := if link == 0 then s else SetReg(s, 30, Plus(s.pc, 4));
      Some(t.(pc := Plus(s.pc, imm)))
    case Br(rn) => Some(s.(pc := Reg(s, rn)))
    case Mov(size, kind, rd, imm16, shift) =>
      (match Moved(size, kind, imm16, shift, Reg(s, rd))
       case None => None
       case Some(v) => Some(SetReg(s, rd, v).(pc := Plus(s.pc, 4))))
    case Other => None
  }

  /** What instructions do, as a value; `IsA64` says that they do what Step says. */
  type Semantics = (Word, Cpu) -> Option<Cpu>

  ghost predicate IsA64(step: Semantics) {
    forall w, s {:trigger Step(w, s)} :: step(w, s) == Step(w, s)
  }

  /** `n` instructions of the code at `base`; nothing if it is left before. */
  function Run(step: Semantics, code: seq<Word>, base: Address, s: Cpu, n: nat): Option<Cpu>
    decreases n
  {
    if n == 0 then Some(s)
    else if s.pc < base || (s.pc - base) % 4 != 0 || (s.pc - base) / 4 >= |code| then None
    else
      match step(code[(s.pc - base) / 4], s)
      case None => None
      case Some(t) => Run(step, code, base, t, n - 1)
  }
}
