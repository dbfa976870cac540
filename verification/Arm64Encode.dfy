/** The assemblers of external/detours/disasm.cpp, each a bit-field structure, and that what they assemble
    decodes to what was meant. */
module Arm64Encode {
  import opened Prelude
  import opened Addresses
  import opened Arm64

  /** `delta >> 2` stored in a field of `size` values. */
  function Field(delta: int, size: nat): (r: nat)
    requires 0 < size
    ensures r < size
  {
    delta / 4 % size
  }

  function AssembleBcc(cond: nat, delta: int): Word
    requires cond < 0x10
  {
    cond + 0x20 * Field(delta, 0x8_0000) + 0x5400_0000
  }

  function AssembleB(link: nat, delta: int): Word
    requires link < 2
  {
    Field(delta, 0x400_0000) + 0x1400_0000 + 0x8000_0000 * link
  }

  function AssembleCbz(size: nat, nz: nat, rt: nat, delta: int): Word
    requires size < 2 && nz < 2 && rt < 0x20
  {
    rt + 0x20 * Field(delta, 0x8_0000) + 0x100_0000 * nz + 0x3400_0000 + 0x8000_0000 * size
  }

  function AssembleTbz(size: nat, nz: nat, rt: nat, bit: nat, delta: int): Word
    requires size < 2 && nz < 2 && rt < 0x20 && bit < 0x20
  {
    rt + 0x20 * Field(delta, 0x4000) + 0x8_0000 * bit + 0x100_0000 * nz + 0x3600_0000 + 0x8000_0000 * size
  }

  function AssembleBr(rn: nat): Word
    requires rn < 0x20
  {
    0x20 * rn + 0x400 * 0x3587c0
  }

  function AssembleMov(size: nat, kind: nat, rd: nat, imm16: nat, shift: nat): Word
    requires size < 2 && kind < 4 && rd < 0x20 && imm16 < 0x1_0000 && shift < 4
  {
    rd + 0x20 * imm16 + 0x20_0000 * shift + 0x80_0000 * 0x25 + 0x2000_0000 * kind + 0x8000_0000 * size
  }

  ghost predicate IsTest(t: Test) {
    match t
    case Flags(cond) => cond < 0x10
    case Zero(size, nz, rt) => size < 2 && nz < 2 && rt < 0x20
    case Bit(size, nz, rt, bit) => size < 2 && nz < 2 && rt < 0x20 && bit < 0x20
  }

  function AssembleTest(t: Test, delta: int): Word
    requires IsTest(t)
  {
    match t
    case Flags(cond) => AssembleBcc(cond, delta)
    case Zero(size, nz, rt) => AssembleCbz(size, nz, rt, delta)
    case Bit(size, nz, rt, bit) => AssembleTbz(size, nz, rt, bit, delta)
  }

  /** The values of the displacement field of a branch on a test. */
  function Width(t: Test): nat {
    if t.Bit? then 0x4000 else 0x8_0000
  }

  /** A displacement that fits its field comes back. */
  lemma FieldSigned(delta: int, size: nat)
    requires size == 0x4000 || size == 0x8_0000 || size == 0x400_0000
    requires delta % 4 == 0 && -2 * size <= delta < 2 * size
    ensures 4 * Signed(Field(delta, size), size) == delta
  {
  }

  lemma Times(unit: int, k: int)
    requires 0 <= unit && 0 <= k
    ensures unit * (k + 1) >= unit && unit * (-k - 1) <= -unit
  {
    assert unit * k >= 0;
  }

  /** The two parts of a word. */
  lemma Parts(low: nat, unit: nat, high: nat)
    requires low < unit
    ensures (low + unit * high) / unit == high
    ensures (low + unit * high) % unit == low
  {
    var w := low + unit * high;
    var k := w / unit - high;
    assert unit * k == low - w % unit;
    if k > 0 {
      Times(unit, k - 1);
    } else if k < 0 {
      Times(unit, -k - 1);
    }
  }

  /** A word with a register at the bottom, a displacement of `size` values above it, and `top` above
      that. */
  lemma Layout(low: nat, f: nat, size: nat, top: nat)
    requires low < 0x20 && f < size
    ensures (low + 0x20 * f + 0x20 * size * top) % 0x20 == low
    ensures (low + 0x20 * f + 0x20 * size * top) / 0x20 % size == f
    ensures (low + 0x20 * f + 0x20 * size * top) / (0x20 * size) == top
  {
    var w := low + 0x20 * f + 0x20 * size * top;
    Parts(low, 0x20, f + size * top);
    assert w == low + 0x20 * (f + size * top);
    Parts(f, size, top);
    assert w == (low + 0x20 * f) + (0x20 * size) * top;
    Parts(low + 0x20 * f, 0x20 * size, top);
  }

  lemma BccDecodes(cond: nat, delta: int)
    requires cond < 0x10
    ensures Decode(AssembleBcc(cond, delta)) == Branch(Flags(cond), 4 * Signed(Field(delta, 0x8_0000), 0x8_0000))
  {
    var w := AssembleBcc(cond, delta);
    Layout(cond, Field(delta, 0x8_0000), 0x8_0000, 0x54);
    BccTop(w, cond, w / 0x20);
  }

  lemma BccTop(w: Word, cond: nat, rest: nat)
    requires cond < 0x10 && w == cond + 0x20 * rest
    ensures w / 0x10 % 2 == 0 && w % 0x10 == cond
  {
  }

  lemma CbzDecodes(size: nat, nz: nat, rt: nat, delta: int)
    requires size < 2 && nz < 2 && rt < 0x20
    ensures Decode(AssembleCbz(size, nz, rt, delta)) ==
            Branch(Zero(size, nz, rt), 4 * Signed(Field(delta, 0x8_0000), 0x8_0000))
  {
    var top := nz + 0x34 + 0x80 * size;
    var w := AssembleCbz(size, nz, rt, delta);
    Layout(rt, Field(delta, 0x8_0000), 0x8_0000, top);
    CbzTop(w, size, nz);
  }

  lemma CbzTop(w: Word, size: nat, nz: nat)
    requires size < 2 && nz < 2 && w / 0x100_0000 == nz + 0x34 + 0x80 * size
    ensures w / 0x400_0000 % 0x20 == 0x0d && w / 0x200_0000 % 0x40 == 0x1a && w / 0x8000_0000 == size
  {
  }

  lemma TbzDecodes(size: nat, nz: nat, rt: nat, bit: nat, delta: int)
    requires size < 2 && nz < 2 && rt < 0x20 && bit < 0x20
    ensures Decode(AssembleTbz(size, nz, rt, bit, delta)) ==
            Branch(Bit(size, nz, rt, bit), 4 * Signed(Field(delta, 0x4000), 0x4000))
  {
    var w := AssembleTbz(size, nz, rt, bit, delta);
    Layout(rt, Field(delta, 0x4000), 0x4000, bit + 0x20 * (nz + 0x36 + 0x80 * size));
    TbzTop(w, size, nz, bit);
  }

  lemma TbzTop(w: Word, size: nat, nz: nat, bit: nat)
    requires size < 2 && nz < 2 && bit < 0x20 && w / 0x8_0000 == bit + 0x20 * (nz + 0x36 + 0x80 * size)
    ensures w / 0x400_0000 % 0x20 == 0x0d && w / 0x200_0000 % 0x40 == 0x1b && w / 0x8000_0000 == size
    ensures w / 0x100_0000 == nz + 0x36 + 0x80 * size && w / 0x8_0000 % 0x20 == bit
  {
  }

  lemma MovDecodes(size: nat, kind: nat, rd: nat, imm16: nat, shift: nat)
    requires size < 2 && kind < 4 && rd < 0x20 && imm16 < 0x1_0000 && shift < 4
    ensures Decode(AssembleMov(size, kind, rd, imm16, shift)) == Mov(size, kind, rd, imm16, shift)
  {
    var w := AssembleMov(size, kind, rd, imm16, shift);
    Layout(rd, imm16, 0x1_0000, shift + 4 * 0x25 + 0x100 * kind + 0x400 * size);
    MovTop(w, size, kind, shift);
  }

  lemma MovTop(w: Word, size: nat, kind: nat, shift: nat)
    requires size < 2 && kind < 4 && shift < 4
    requires w / 0x20_0000 == shift + 4 * 0x25 + 0x100 * kind + 0x400 * size
    ensures w / 0x8000_0000 == size && w / 0x2000_0000 % 4 == kind && w / 0x20_0000 % 4 == shift
    ensures w / 0x80_0000 % 0x40 == 0x25
    ensures w / 0x400_0000 % 0x20 != 0x05 && w / 0x100_0000 != 0x54 && w / 0x400 != 0x3587c0
    ensures w / 0x200_0000 % 0x40 != 0x1a && w / 0x200_0000 % 0x40 != 0x1b
  {
  }

  lemma BrDecodes(rn: nat)
    requires rn < 0x20
    ensures Decode(AssembleBr(rn)) == Br(rn)
  {
    var w := AssembleBr(rn);
    Layout(0, rn, 0x20, 0x3587c0);
    BrTop(w);
  }

  lemma BrTop(w: Word)
    requires w / 0x400 == 0x3587c0
    ensures w / 0x100_0000 == 0xd6
    ensures w / 0x400_0000 % 0x20 == 0x15
    ensures w / 0x200_0000 % 0x40 == 0x2b
  {
  }

  lemma BDecodes(link: nat, delta: int)
    requires link < 2
    ensures Decode(AssembleB(link, delta)) == B(link, 4 * Signed(Field(delta, 0x400_0000), 0x400_0000))
  {
  }
}
