/** Moving x64 instructions: the displacements in them are adjusted so that they denote the same address. */
module X64Copy {
  import opened Prelude
  import opened Addresses
  import opened DetourJump

  // ---- Little-endian numbers of any size ----

  function Pow256(n: nat): (p: nat)
    ensures 0 < p
  {
    if n == 0 then 1 else 0x100 * Pow256(n - 1)
  }

  /** The low `n` bytes of a number. */
  function Low(v: int, n: nat): (s: seq<Byte>)
    ensures |s| == n
    decreases n
  {
    if n == 0 then [] else [v % 0x100] + Low(v / 0x100, n - 1)
  }

  function Unsigned(s: seq<Byte>): (u: nat)
    ensures u < Pow256(|s|)
  {
    if s == [] then 0 else s[0] as nat + 0x100 * Unsigned(s[1..])
  }

  /** A field of an instruction as a signed number. */
  function Signed(s: seq<Byte>): int {
    var u := Unsigned(s);
    if 2 * u < Pow256(|s|) then u else u - Pow256(|s|)
  }

  predicate Fits(v: int, n: nat) {
    -Half(n) <= v < Half(n)
  }

  function Half(n: nat): int {
    Pow256(n) / 2
  }

  /** Truncating changes a number by a multiple of the field's range. */
  lemma {:induction false} LowIs(v: int, n: nat) returns (k: int)
    ensures v == Unsigned(Low(v, n)) + k * Pow256(n)
    decreases n
  {
    if n == 0 {
      k := v;
    } else {
      k := LowIs(v / 0x100, n - 1);
      assert Low(v, n)[1..] == Low(v / 0x100, n - 1);
      assert v == v % 0x100 + 0x100 * (v / 0x100);
      Associate(k, Pow256(n - 1));
    }
  }

  lemma Associate(k: int, p: int)
    ensures 0x100 * (k * p) == k * (0x100 * p)
  {
  }

  /** A number comes back from a field exactly if it fits, and otherwise is off by a multiple of the range. */
  lemma SignedLow(v: int, n: nat) returns (k: int)
    requires 0 < n
    ensures Signed(Low(v, n)) == v - k * Pow256(n)
    ensures Fits(v, n) <==> k == 0
  {
    var j := LowIs(v, n);
    var p := Pow256(n);
    Halves(n);
    k := if 2 * Unsigned(Low(v, n)) < p then j else j + 1;
    Next(j, p);
    if k > 0 {
      Grows(k, p);
    } else if k < 0 {
      assert k * p == -((-k) * p);
      Grows(-k, p);
    }
  }

  lemma Halves(n: nat)
    requires 0 < n
    ensures Pow256(n) == 2 * Half(n)
  {
  }

  lemma Next(j: int, p: int)
    ensures (j + 1) * p == j * p + p
  {
  }

  lemma Grows(k: int, p: nat)
    requires 0 < k
    ensures k * p >= p
  {
    assert (k - 1) * p >= 0;
  }

  // ---- Instructions ----

  /** COPYENTRY: the sizes of an instruction without and with 16-bit operands, the offsets of its ModR/M byte and
      of a relative target, and the immediate bytes behind a displacement. */
  datatype Entry = Entry(fixed: nat, fixed16: nat, modOffset: nat, relOffset: nat, targetBack: nat, address: bool,
                         rax: bool, noEnlarge: bool)

  /** The entries that the tables use for instructions with a ModR/M byte. */
  const COPY2_MOD := Entry(2, 2, 1, 0, 0, false, false, false)
  const COPY2_MOD1 := Entry(3, 3, 1, 0, 1, false, false, false)
  const COPY2_MOD_OPERAND := Entry(6, 4, 1, 0, 4, false, false, false)
  const COPY3_MOD := Entry(3, 3, 2, 0, 0, false, false, false)
  const COPY3_MOD1 := Entry(4, 4, 2, 0, 1, false, false, false)

  /** Those that it uses for instructions of fixed size, which may depend on the prefixes. */
  const COPY1 := Entry(1, 1, 0, 0, 0, false, false, false)
  const COPY1_ADDRESS := Entry(9, 5, 0, 0, 0, true, false, false)
  const COPY2 := Entry(2, 2, 0, 0, 0, false, false, false)
  const COPY3 := Entry(3, 3, 0, 0, 0, false, false, false)
  const COPY3_OR5 := Entry(5, 3, 0, 0, 0, false, false, false)
  const COPY3_OR5_RAX := Entry(5, 3, 0, 0, 0, false, true, false)
  const COPY4 := Entry(4, 4, 0, 0, 0, false, false, false)

  /** And for those with a relative target: near calls and jumps, and the loops that cannot be widened. */
  const COPY5_TARGET := Entry(5, 5, 0, 1, 0, false, false, false)
  const COPY2_CANT_JUMP := Entry(2, 2, 0, 1, 0, false, false, true)

  predicate IsMod(e: Entry) {
    e in {COPY2_MOD, COPY2_MOD1, COPY2_MOD_OPERAND, COPY3_MOD, COPY3_MOD1}
  }

  predicate IsRelative(e: Entry) {
    e in {COPY5_TARGET, COPY2_CANT_JUMP}
  }

  predicate IsFixed(e: Entry) {
    e in {COPY1, COPY1_ADDRESS, COPY2, COPY3, COPY3_OR5, COPY3_OR5_RAX, COPY4}
  }

  /** The prefixes seen: operand size, address size, REX.W, and REPNE. */
  datatype Prefixes = Prefixes(operand: bool, addr: bool, wide: bool, repne: bool)

  /** The first part of CopyBytes. */
  function FixedSize(e: Entry, p: Prefixes): nat {
    if e.address then if p.addr then e.fixed16 else e.fixed
    else if p.wide then e.fixed + (if e.rax then 4 else 0)
    else if p.operand then e.fixed16 else e.fixed
  }

  /** s_rbModRm: the bytes a ModR/M byte adds, and whether a SIB byte or a RIP-relative displacement is among
      them. */
  function ModRmBytes(m: Byte): nat {
    match m / 0x40
    case 0 => if m % 8 == 4 then 1 else if m % 8 == 5 then 4 else 0
    case 1 => if m % 8 == 4 then 2 else 1
    case 2 => if m % 8 == 4 then 5 else 4
    case _ => 0
  }

  predicate ModRmSib(m: Byte) {
    m / 0x40 == 0 && m % 8 == 4
  }

  predicate ModRmRip(m: Byte) {
    m / 0x40 == 0 && m % 8 == 5
  }

  /** The bytes that the size depends on are there. */
  predicate Readable(e: Entry, code: seq<Byte>) {
    e.modOffset > 0 ==>
      e.modOffset < |code| && (ModRmSib(code[e.modOffset]) ==> e.modOffset + 1 < |code|)
  }

  /** The size of the instruction. */
  function Size(e: Entry, p: Prefixes, code: seq<Byte>): nat
    requires Readable(e, code)
  {
    var n := FixedSize(e, p);
    if e.modOffset == 0 then n
    else
      var m := code[e.modOffset];
      n + ModRmBytes(m) + (if ModRmSib(m) && code[e.modOffset + 1] % 8 == 5 then 4 else 0)
  }

  /** The offset and the size of the displacement that CopyBytes adjusts. */
  function Field(e: Entry, p: Prefixes, code: seq<Byte>): Option<(nat, nat)>
    requires Readable(e, code)
  {
    var n := Size(e, p, code);
    if e.modOffset > 0 && ModRmRip(code[e.modOffset]) then
      var back := if e.targetBack == 4 && p.operand && !p.wide then 2 else e.targetBack;
      if n >= 4 + back then Some((n - (4 + back), 4)) else None
    else if e.relOffset > 0 && n >= e.relOffset then Some((e.relOffset, n - e.relOffset))
    else None
  }

  /** The sizes of fields that AdjustTarget knows. */
  predicate IsKnown(n: nat) {
    n == 1 || n == 2 || n == 4 || n == 8
  }

  predicate HasKnownField(e: Entry, p: Prefixes, code: seq<Byte>)
    requires Readable(e, code)
  {
    var field := Field(e, p, code);
    field.Some? ==> IsKnown(field.value.1) && field.value.0 + field.value.1 <= Size(e, p, code)
  }

  // ---- The same by the instruction format (Intel SDM Vol. 2, sections 2.1.3 to 2.1.5 and 2.2.1.6) ----

  /** The bytes of an immediate operand behind a ModR/M operand. */
  function Immediate(e: Entry, p: Prefixes): nat
    requires IsMod(e)
  {
    if e == COPY2_MOD_OPERAND then if p.operand && !p.wide then 2 else 4
    else if e == COPY2_MOD1 || e == COPY3_MOD1 then 1
    else 0
  }

  /** The bytes of a ModR/M operand: a SIB byte where the memory operand has index or base, and a displacement of
      one or four bytes, or none. */
  function Operand(m: Byte, next: Byte): nat {
    var mode, rm := m / 0x40, m % 8;
    if mode == 3 then 0
    else
      var sib := if rm == 4 then 1 else 0;
      var disp :=
        if mode == 1 then 1
        else if mode == 2 then 4
        else if rm == 5 || (rm == 4 && next % 8 == 5) then 4
        else 0;
      sib + disp
  }

  /** CopyBytes finds the size that the format gives: opcode, ModR/M byte, operand and immediate. And it adjusts
      exactly the RIP-relative displacements, which are behind the ModR/M byte, whatever immediate follows. */
  lemma ModFollowsFormat(e: Entry, p: Prefixes, code: seq<Byte>)
    requires IsMod(e) && Readable(e, code)
    ensures var next := if e.modOffset + 1 < |code| then code[e.modOffset + 1] else 0;
            Size(e, p, code) == e.modOffset + 1 + Operand(code[e.modOffset], next) + Immediate(e, p)
    ensures Field(e, p, code) == if ModRmRip(code[e.modOffset]) then Some((e.modOffset + 1, 4)) else None
    ensures HasKnownField(e, p, code)
  {
    ModRmOperand(code[e.modOffset], if e.modOffset + 1 < |code| then code[e.modOffset + 1] else 0);
  }

  lemma ModRmOperand(m: Byte, next: Byte)
    ensures Operand(m, next) == ModRmBytes(m) + if ModRmSib(m) && next % 8 == 5 then 4 else 0
  {
  }

  /** Calls, jumps and loops end with their displacement. */
  lemma RelativeFollowsFormat(e: Entry, p: Prefixes, code: seq<Byte>)
    requires IsRelative(e)
    ensures Field(e, p, code) == Some((1, Size(e, p, code) - 1)) && HasKnownField(e, p, code)
  {
  }

  // ---- Addresses ----

  /** The address that a displacement in the field `at` of an instruction at `a` denotes: from behind it. */
  function Denotes(code: seq<Byte>, a: Address, at: nat, n: nat): Address
    requires at + n <= |code|
  {
    Wrap(a + |code| + Signed(code[at..at + n]))
  }

  lemma DistanceIs(a: Address, b: Address) returns (c: int)
    ensures Distance(a, b) == a - b + c * TWO64 && -1 <= c <= 1
    ensures -TWO64 / 2 <= Distance(a, b) <= TWO64 / 2
  {
    var d := a - b;
    c := if d >= TWO64 / 2 then -1 else if d < -TWO64 / 2 then 1 else 0;
  }

  lemma WrapsSame(a: int, b: int)
    ensures Wrap(a) == Wrap(b) <==> (a - b) % TWO64 == 0
  {
  }

  lemma SmallPower(n: nat)
    requires 0 < n <= 4
    ensures 0x100 <= Pow256(n) <= 0x1_0000_0000
  {
    assert Pow256(1) == 0x100;
    assert Pow256(2) == 0x1_0000;
    assert Pow256(3) == 0x100_0000;
    assert Pow256(4) == 0x1_0000_0000;
  }

  /** A displacement in an instruction of `from` bytes, moved to one of `to` bytes: it denotes what it did if it
      comes back from its field, and something else if not. */
  lemma MovedDenotes(src: Address, dst: Address, from: nat, to: nat, was: int, n: nat)
    requires 0 < n <= 4 && -0x8000_0000 <= was < 0x8000_0000 && from < 0x100 && to < 0x100
    ensures var now := was + from - to - Distance(dst, src);
            Wrap(dst + to + Signed(Low(now, n))) == Wrap(src + from + was) <==> Fits(now, n)
  {
    var now := was + from - to - Distance(dst, src);
    var c := DistanceIs(dst, src);
    var k := SignedLow(now, n);
    var off := k * Pow256(n);
    SmallPower(n);
    Halves(n);
    if k > 0 {
      Grows(k, Pow256(n));
    } else if k < 0 {
      assert off == -((-k) * Pow256(n));
      Grows(-k, Pow256(n));
    }
    OffByNothing(dst + to + Signed(Low(now, n)), src + from + was, off, c);
  }

  lemma OffByNothing(a: int, b: int, off: int, c: int)
    requires a - b == -off - c * TWO64 && -1 <= c <= 1 && -TWO64 < off < TWO64
    ensures Wrap(a) == Wrap(b) <==> off == 0
  {
    WrapsSame(a, b);
  }

  /** With a 32-bit address size, a 32-bit displacement always denotes what it did. */
  lemma MovedDenotes32(src: Address, dst: Address, size: nat, was: int)
    ensures var now := was - Distance(dst, src);
            Wrap(dst + size + Signed(Low(now, 4))) % TWO32 == Wrap(src + size + was) % TWO32
  {
    var now := was - Distance(dst, src);
    var c := DistanceIs(dst, src);
    var k := SignedLow(now, 4);
    SmallPower(4);
    assert Pow256(4) == TWO32;
    Wraps32(dst + size + Signed(Low(now, 4)), src + size + was, -k - c * TWO32);
  }

  lemma Wraps32(a: int, b: int, k: int)
    requires a - b == k * TWO32
    ensures Wrap(a) % TWO32 == Wrap(b) % TWO32
  {
    Same32(Wrap(a), a, -(a / TWO64) * TWO32);
    Same32(Wrap(b), b, -(b / TWO64) * TWO32);
    Same32(a, b, k);
  }

  lemma Same32(x: int, y: int, m: int)
    requires x - y == m * TWO32
    ensures x % TWO32 == y % TWO32
  {
  }

  /** A field of eight bytes holds every distance. */
  lemma MovedDenotes64(src: Address, dst: Address, size: nat, was: int, n: nat)
    requires n == 8
    ensures var now := was - Distance(dst, src);
            Wrap(dst + size + Signed(Low(now, n))) == Wrap(src + size + was)
  {
    var now := was - Distance(dst, src);
    var c := DistanceIs(dst, src);
    var k := SignedLow(now, n);
    Pow256Of8(n);
    WrapsOff(dst + size + Signed(Low(now, n)), src + size + was, -c - k);
  }

  lemma WrapsOff(a: int, b: int, k: int)
    requires a - b == k * TWO64
    ensures Wrap(a) == Wrap(b)
  {
    Multiple(k);
    WrapsSame(a, b);
  }

  lemma Pow256Of8(n: nat)
    requires n == 8
    ensures Pow256(n) == TWO64
  {
    assert Pow256(n - 3) == 0x100 * Pow256(n - 4) && Pow256(n - 2) == 0x100 * Pow256(n - 3);
    assert Pow256(n - 1) == 0x100 * Pow256(n - 2) && Pow256(n) == 0x100 * Pow256(n - 1);
    Pow256Of4(n - 4);
  }

  lemma Pow256Of4(n: nat)
    requires n == 4
    ensures Pow256(n) == TWO32
  {
    assert Pow256(n - 3) == 0x100 * Pow256(n - 4) && Pow256(n - 2) == 0x100 * Pow256(n - 3);
    assert Pow256(n - 1) == 0x100 * Pow256(n - 2) && Pow256(n) == 0x100 * Pow256(n - 1);
  }

  lemma Multiple(k: int)
    ensures k * TWO64 % TWO64 == 0
  {
  }

  /** The displacement is small enough for its field, or the field is as wide as an address. */
  predicate Suits(v: int, n: nat) {
    n == 8 || Fits(v, n)
  }

  /** Moving on by the same number of bytes at both ends keeps the distance. */
  lemma DistanceKept(a: Address, b: Address, k: nat)
    ensures Distance(Wrap(a + k), Wrap(b + k)) == Distance(a, b)
  {
    var p, q := (a + k) / TWO64, (b + k) / TWO64;
    assert Wrap(a + k) == a + k - p * TWO64 && Wrap(b + k) == b + k - q * TWO64;
    SameDistance(Wrap(a + k), Wrap(b + k), a, b, q - p);
  }

  lemma SameDistance(x: Address, y: Address, a: Address, b: Address, m: int)
    requires x - y == a - b + m * TWO64
    ensures Distance(x, y) == Distance(a, b)
  {
    assert -2 < m < 2;
  }

  /** Prefixes in front change nothing about what an instruction denotes. */
  lemma PrefixDenotes(prefix: seq<Byte>, code: seq<Byte>, a: Address, at: nat, n: nat)
    requires at + n <= |code|
    ensures Denotes(prefix + code, a, |prefix| + at, n) == Denotes(code, Wrap(a + |prefix|), at, n)
  {
    assert (prefix + code)[|prefix| + at..|prefix| + at + n] == code[at..at + n];
    WrapsSame(a + |prefix| + |code| + Signed(code[at..at + n]), Wrap(a + |prefix|) + |code| + Signed(code[at..at + n]));
  }

  // ---- Copies ----

  /** The instruction with the displacement in the field adjusted. */
  function Adjusted(code: seq<Byte>, src: Address, dst: Address, at: nat, n: nat): (out: seq<Byte>)
    requires at + n <= |code|
    ensures |out| == |code|
  {
    code[..at] + Low(Signed(code[at..at + n]) - Distance(dst, src), n) + code[at + n..]
  }

  /** An instruction behind prefixes is adjusted as if it stood alone where it is. */
  lemma PrefixAdjusted(prefix: seq<Byte>, code: seq<Byte>, src: Address, dst: Address, at: nat, n: nat)
    requires at + n <= |code|
    ensures Adjusted(prefix + code, src, dst, |prefix| + at, n) ==
            prefix + Adjusted(code, Wrap(src + |prefix|), Wrap(dst + |prefix|), at, n)
  {
    var whole := prefix + code;
    DistanceKept(dst, src, |prefix|);
    assert whole[|prefix| + at..|prefix| + at + n] == code[at..at + n];
    assert whole[..|prefix| + at] == prefix + code[..at] && whole[|prefix| + at + n..] == code[at + n..];
  }

  lemma FieldRange(s: seq<Byte>)
    requires 0 < |s| <= 4
    ensures -0x8000_0000 <= Signed(s) < 0x8000_0000
  {
    SmallPower(|s|);
  }

  /** An adjusted copy denotes at its new address what the original denoted at the old one, exactly if the new
      displacement suits its field; nothing else of the instruction changes. */
  lemma AdjustedDenotes(code: seq<Byte>, src: Address, dst: Address, at: nat, n: nat)
    requires IsKnown(n) && at + n <= |code| < 0x100
    ensures var out := Adjusted(code, src, dst, at, n);
            && (Denotes(out, dst, at, n) == Denotes(code, src, at, n) <==>
                Suits(Signed(code[at..at + n]) - Distance(dst, src), n))
            && out[..at] == code[..at] && out[at + n..] == code[at + n..]
  {
    AdjustedParts(code, src, dst, at, n);
    MovedSuits(src, dst, |code|, code[at..at + n]);
  }

  lemma AdjustedParts(code: seq<Byte>, src: Address, dst: Address, at: nat, n: nat)
    requires at + n <= |code|
    ensures var out := Adjusted(code, src, dst, at, n);
            && out[at..at + n] == Low(Signed(code[at..at + n]) - Distance(dst, src), n)
            && out[..at] == code[..at] && out[at + n..] == code[at + n..]
  {
  }

  lemma MovedSuits(src: Address, dst: Address, size: nat, field: seq<Byte>)
    requires IsKnown(|field|) && size < 0x100
    ensures var now := Signed(field) - Distance(dst, src);
            Wrap(dst + size + Signed(Low(now, |field|))) == Wrap(src + size + Signed(field)) <==> Suits(now, |field|)
  {
    if |field| == 8 {
      MovedDenotes64(src, dst, size, Signed(field), |field|);
    } else {
      FieldRange(field);
      MovedDenotes(src, dst, size, size, Signed(field), |field|);
    }
  }

  /** CopyBytesJump: a short jump made near. */
  function Widened(code: seq<Byte>, src: Address, dst: Address): (out: seq<Byte>)
    requires |code| == 2
    ensures |out| == if code[0] == 0xeb then 5 else 6
  {
    NearOpcode(code[0]) + Low(Signed(code[1..2]) - (Distance(dst, src) + Growth(code)), 4)
  }

  /** The opcode of the near jump. */
  function NearOpcode(b: Byte): seq<Byte> {
    if b == 0xeb then [0xe9] else [0x0f, 0x80 + b % 0x10]
  }

  /** The bytes by which a short jump grows. */
  function Growth(code: seq<Byte>): int
    requires code != []
  {
    if code[0] == 0xeb then 3 else 4
  }

  predicate IsShortJump(code: seq<Byte>) {
    |code| == 2 && (code[0] == 0xeb || 0x70 <= code[0] <= 0x7f)
  }

  /** The near jump has the condition of the short one, and its target exactly if the displacement fits. */
  lemma WidenedDenotes(code: seq<Byte>, src: Address, dst: Address)
    requires IsShortJump(code)
    ensures var out := Widened(code, src, dst);
            var size: nat := if code[0] == 0xeb then 5 else 6;
            && |out| == size
            && (if code[0] == 0xeb then out[0] == 0xe9 else out[0] == 0x0f && out[1] - 0x80 == code[0] - 0x70)
            && (Denotes(out, dst, size - 4, 4) == Denotes(code, src, 1, 1) <==>
                Fits(Signed(code[1..2]) + 2 - size - Distance(dst, src), 4))
  {
    var out := Widened(code, src, dst);
    var size: nat := if code[0] == 0xeb then 5 else 6;
    NearDenotes(code, out, src, dst, size);
  }

  lemma NearDenotes(code: seq<Byte>, out: seq<Byte>, src: Address, dst: Address, size: nat)
    requires |code| == 2 && |out| == size && 4 <= size <= 6
    requires out[size - 4..] == Low(Signed(code[1..2]) + 2 - size - Distance(dst, src), 4)
    ensures Denotes(out, dst, size - 4, 4) == Denotes(code, src, 1, 1) <==>
            Fits(Signed(code[1..2]) + 2 - size - Distance(dst, src), 4)
  {
    FieldRange(code[1..2]);
    assert out[size - 4..size - 4 + 4] == out[size - 4..];
    MovedDenotes(src, dst, 2, size, Signed(code[1..2]), 4);
  }

  lemma ShortDenotes(code: seq<Byte>, src: Address)
    requires |code| == 2
    ensures Denotes(code, src, 1, 1) == Wrap(src + 2 + Signed(code[1..2]))
  {
  }
}
