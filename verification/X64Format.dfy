/** The x64 instruction format by the manuals (Intel SDM Vol. 2, chapter 2 and appendix A; for 3DNow!, FEMMS, EXTRQ and
    INSERTQ, and the second encoding of TEST, AMD APM Vol. 3, appendix A), and how the decoder keeps to it. */
module X64Format {
  import opened Prelude
  import opened X64Copy
  import opened X64Decode
  import opened X64Instruction

  // ---- Prefixes ----

  predicate IsLegacy(b: Byte) {
    b in {0x26, 0x2e, 0x36, 0x3e, 0x64, 0x65, 0x66, 0x67, 0xf0, 0xf2, 0xf3}
  }

  predicate IsRex(b: Byte) {
    b / 0x10 == 4
  }

  predicate IsRexW(b: Byte) {
    b / 8 == 9
  }

  /** The number of prefixes that code begins with. */
  function Prefixed(code: seq<Byte>): (n: nat)
    ensures n <= |code|
  {
    if code == [] || !(IsLegacy(code[0]) || IsRex(code[0])) then 0 else 1 + Prefixed(code[1..])
  }

  /** What prefixes say: a REX prefix counts only right in front of the opcode. */
  function Effective(s: seq<Byte>): Prefixes {
    Prefixes(0x66 in s, 0x67 in s, s != [] && IsRexW(s[|s| - 1]), 0xf2 in s)
  }

  // ---- The opcode maps ----

  /** The operand of a ModR/M byte: none, a register or memory, or a register whatever its mode says. */
  datatype ModRm = NoModRm | AnyModRm | RegisterModRm

  /** The bytes of the opcode, its ModR/M operand, and the sizes of immediate operands and of a relative target. */
  datatype Format = Format(opcode: nat, modRm: ModRm, immediate: nat, relative: nat)

  /** Iz: 16 or 32 bits. */
  function Word(p: Prefixes): nat {
    if p.operand && !p.wide then 2 else 4
  }

  /** The one-byte map, without the TEST groups. */
  predicate Undefined1(b: Byte) {
    b in {0x06, 0x07, 0x0e, 0x16, 0x17, 0x1e, 0x1f, 0x27, 0x2f, 0x37, 0x3f, 0x60, 0x61, 0x62, 0x82, 0x9a, 0xce, 0xd4,
          0xd5, 0xd6, 0xea}
  }

  predicate HasModRm1(b: Byte) {
    || (b < 0x40 && b % 8 < 4) || 0x84 <= b < 0x90 || 0xd0 <= b < 0xd4 || 0xd8 <= b < 0xe0
    || b in {0x63, 0x69, 0x6b, 0x80, 0x81, 0x83, 0xc0, 0xc1, 0xc6, 0xc7, 0xf6, 0xf7, 0xfe, 0xff}
  }

  function Immediate1(b: Byte, p: Prefixes): nat {
    if (b < 0x40 && b % 8 == 4) || b in {0x6a, 0x6b, 0x80, 0x83, 0xa8, 0xc0, 0xc1, 0xc6, 0xcd} then 1
    else if 0xb0 <= b < 0xb8 || 0xe4 <= b < 0xe8 then 1
    else if b == 0xc2 || b == 0xca then 2
    else if b == 0xc8 then 3
    else if 0xb8 <= b < 0xc0 then if p.wide then 8 else Word(p)
    else if 0xa0 <= b < 0xa4 then if p.addr then 4 else 8
    else if TakesWord(b) then Word(p)
    else 0
  }

  predicate TakesWord(b: Byte) {
    (b < 0x40 && b % 8 == 5) || b in {0x68, 0x69, 0x81, 0xa9, 0xc7}
  }

  function Relative1(b: Byte): nat {
    if 0x70 <= b < 0x80 || 0xe0 <= b < 0xe4 || b == 0xeb then 1
    else if b == 0xe8 || b == 0xe9 then 4
    else 0
  }

  /** TEST, whose group alone has an immediate. */
  predicate IsTestOf(b: Byte, m: Byte) {
    (b == 0xf6 || b == 0xf7) && m / 8 % 8 < 2
  }

  /** XBEGIN, whose immediate is a relative target. */
  predicate IsXbegin(b: Byte, m: Byte) {
    b == 0xc7 && m == 0xf8
  }

  function OneByte(b: Byte, m: Byte, p: Prefixes): Option<Format> {
    if Undefined1(b) then None
    else if IsXbegin(b, m) then Some(Format(1, RegisterModRm, 0, Word(p)))
    else
      var test := if !IsTestOf(b, m) then 0 else if b == 0xf6 then 1 else Word(p);
      Some(Format(1, if HasModRm1(b) then AnyModRm else NoModRm, Immediate1(b, p) + test, Relative1(b)))
  }

  /** The two-byte map, without its escapes 0x38 and 0x3a. */
  predicate Undefined2(b: Byte) {
    || b in {0x04, 0x0a, 0x0c, 0x36, 0x39, 0x7a, 0x7b, 0xa6, 0xa7}
    || 0x24 <= b < 0x28 || 0x3b <= b < 0x40
  }

  predicate NoModRm2(b: Byte) {
    || b in {0x05, 0x06, 0x07, 0x08, 0x09, 0x0b, 0x0e, 0x37, 0x77, 0xa0, 0xa1, 0xa2, 0xa8, 0xa9, 0xaa}
    || 0x30 <= b < 0x36 || 0x80 <= b < 0x90 || 0xc8 <= b < 0xd0
  }

  predicate Immediate2(b: Byte) {
    0x70 <= b < 0x74 || b in {0x0f, 0xa4, 0xac, 0xba, 0xc2, 0xc4, 0xc5, 0xc6}
  }

  /** MOV to and from control and debug registers. */
  predicate IsControl(b: Byte) {
    0x20 <= b < 0x24
  }

  /** EXTRQ and INSERTQ with immediate operands, in place of VMREAD. */
  predicate IsExtract(b: Byte, p: Prefixes) {
    b == 0x78 && (p.operand || p.repne)
  }

  function TwoByte(b: Byte, m: Byte, p: Prefixes): Option<Format> {
    if Undefined2(b) || (IsExtract(b, p) && m < 0xc0) then None
    else if IsExtract(b, p) then Some(Format(1, RegisterModRm, 2, 0))
    else
      Some(Format(1, if NoModRm2(b) then NoModRm else if IsControl(b) then RegisterModRm else AnyModRm,
                  if Immediate2(b) then 1 else 0, if 0x80 <= b < 0x90 then 4 else 0))
  }

  /** The first of the maps that VEX prefixes choose. */
  predicate IsVex1(b: Byte) {
    || 0x10 <= b < 0x18 || 0x28 <= b < 0x30 || 0x41 <= b < 0x43 || 0x44 <= b < 0x48 || 0x4a <= b < 0x4c
    || 0x50 <= b < 0x78 || 0x7c <= b < 0x80 || 0x90 <= b < 0x94 || 0x98 <= b < 0x9a || 0xd0 <= b < 0xff
    || b in {0xae, 0xc2, 0xc4, 0xc5, 0xc6}
  }

  function Vex(m: nat, b: Byte): Option<Format> {
    if m == 1 then
      if !IsVex1(b) then None
      else Some(Format(1, if b == 0x77 then NoModRm else AnyModRm,
                       if 0x70 <= b < 0x74 || 0xc2 <= b < 0xc7 then 1 else 0, 0))
    else if m == 2 then Some(Format(1, AnyModRm, 0, 0))
    else if m == 3 then Some(Format(1, AnyModRm, 1, 0))
    else None
  }

  /** A byte of code, or 0 behind its end. */
  function At(code: seq<Byte>, k: nat): Byte {
    if k < |code| then code[k] else 0
  }

  function Longer(k: nat, f: Option<Format>): Option<Format> {
    if f.None? then None else Some(f.value.(opcode := k + f.value.opcode))
  }

  /** The format of an instruction, from its opcode on: none if the manuals define none. */
  function FormatOf(code: seq<Byte>, p: Prefixes): Option<Format> {
    var b, c := At(code, 0), At(code, 1);
    if b == 0x0f then
      if c == 0x38 then Some(Format(3, AnyModRm, 0, 0))
      else if c == 0x3a then Some(Format(3, AnyModRm, 1, 0))
      else Longer(1, TwoByte(c, At(code, 2), p))
    else if b == 0xc5 then Longer(2, Vex(1, At(code, 2)))
    else if b == 0xc4 then Longer(3, Vex(c % 0x20, At(code, 3)))
    else OneByte(b, c, p)
  }

  /** The bytes of a ModR/M byte with its operand, at `k`. */
  function ModRmSize(k: nat, r: ModRm, code: seq<Byte>): nat {
    match r
    case NoModRm => 0
    case AnyModRm => 1 + Operand(At(code, k), At(code, k + 1))
    case RegisterModRm => 1
  }

  function Length(f: Format, code: seq<Byte>): nat {
    f.opcode + ModRmSize(f.opcode, f.modRm, code) + f.immediate + f.relative
  }

  /** The offset and the size of the displacement that is relative to the address of the next instruction: a target at
      the end, or that of a RIP-relative operand. */
  function Displacement(f: Format, code: seq<Byte>): Option<(nat, nat)> {
    if f.relative > 0 then Some((Length(f, code) - f.relative, f.relative))
    else if f.modRm == AnyModRm && ModRmRip(At(code, f.opcode)) then Some((f.opcode + 1, 4))
    else None
  }

  // ---- Where the decoder does something else ----

  /** The two opcodes that the manuals define and the tables do not: UD0 and UD1. */
  predicate IsRefused(code: seq<Byte>) {
    At(code, 0) == 0x0f && (At(code, 1) == 0xb9 || At(code, 1) == 0xff)
  }

  /** The decoder has REX.W where the format has not, because another prefix is between it and the opcode, and the
      size of an immediate depends on it. */
  function WideOff(b: Byte, c: Byte, p: Prefixes, q: Prefixes): int {
    if !p.wide || q.wide then 0
    else if 0xb8 <= b < 0xc0 then 8 - Word(q)
    else if TakesWord(b) || (b == 0xf7 && IsTestOf(b, c)) then 4 - Word(q)
    else 0
  }

  /** It has no immediate for the second encoding of TEST. */
  predicate IsOtherTest(b: Byte, c: Byte) {
    (b == 0xf6 || b == 0xf7) && c / 8 % 8 == 1
  }

  /** It takes the operand of a MOV to or from a control register for one in memory. */
  predicate IsControlMove(code: seq<Byte>) {
    At(code, 0) == 0x0f && IsControl(At(code, 1))
  }

  function ControlOff(code: seq<Byte>): int {
    if IsControlMove(code) then Operand(At(code, 2), At(code, 3)) else 0
  }

  /** By how many bytes the size decoded is off. */
  function SizeOff(code: seq<Byte>, p: Prefixes, q: Prefixes): int {
    var b, c := At(code, 0), At(code, 1);
    if !IsOtherTest(b, c) then ControlOff(code) + WideOff(b, c, p, q) else if b == 0xf6 then -1 else 0 - Word(q)
  }

  predicate FieldStrays(code: seq<Byte>) {
    || IsXbegin(At(code, 0), At(code, 1))
    || (IsControlMove(code) && ModRmRip(At(code, 2)))
  }

  // ---- The tables by the maps ----

  predicate SameButWide(p: Prefixes, q: Prefixes) {
    p.operand == q.operand && p.addr == q.addr && p.repne == q.repne && (q.wide ==> p.wide)
  }

  /** An entry has the ModR/M byte, the immediate and the target of a format whose opcode it begins with. */
  predicate Shapes(e: Entry, r: ModRm, immediate: nat, relative: nat, p: Prefixes) {
    if IsMod(e) then r != NoModRm && Immediate(e, p) == immediate && relative == 0
    else if IsRelative(e) then r == NoModRm && immediate == 0 && relative == e.fixed - 1
    else IsFixed(e) && r == NoModRm && relative == 0 && FixedSize(e, p) == 1 + immediate
  }

  lemma FirstShapes(b: Byte, p: Prefixes)
    requires First(b).Opcode?
    ensures !Undefined1(b) && b != 0x0f && b != 0xc4 && b != 0xc5
    ensures Shapes(First(b).e, if HasModRm1(b) then AnyModRm else NoModRm, Immediate1(b, p), Relative1(b), p)
    ensures HasModRm1(b) ==> First(b).e.modOffset == 1
  {
  }

  lemma FirstKinds(b: Byte)
    ensures First(b).Prefix? <==> IsLegacy(b) || IsRex(b)
    ensures First(b).Escape? <==> b == 0x0f
    ensures First(b).Vex2? <==> b == 0xc5
    ensures First(b).Vex3? <==> b == 0xc4
    ensures First(b).ByteTest? <==> b == 0xf6
    ensures First(b).WordTest? <==> b == 0xf7
    ensures First(b).ShortJump? <==> 0x70 <= b < 0x80 || b == 0xeb
    ensures First(b).NoOpcode? <==> Undefined1(b)
    ensures !First(b).Extract?
  {
  }

  lemma SecondShapes(b: Byte, p: Prefixes)
    requires Second(b).Opcode?
    ensures b == 0x38 || b == 0x3a || !Undefined2(b) || b == 0xa6 || b == 0xa7
    ensures b != 0x38 && b != 0x3a ==>
              Shapes(Second(b).e, if NoModRm2(b) then NoModRm else AnyModRm, if Immediate2(b) then 1 else 0,
                     if 0x80 <= b < 0x90 then 4 else 0, p)
              && (!NoModRm2(b) ==> Second(b).e.modOffset == 1)
    ensures b == 0x38 ==> Second(b).e == COPY3_MOD
    ensures b == 0x3a ==> Second(b).e == COPY3_MOD1
  {
  }

  lemma SecondKinds(b: Byte)
    ensures Second(b).Extract? <==> b == 0x78
    ensures Second(b).NoOpcode? <==> (Undefined2(b) && b != 0xa6 && b != 0xa7) || b == 0xb9 || b == 0xff
    ensures Second(b).Opcode? || Second(b).Extract? || Second(b).NoOpcode?
  {
  }

  // ---- One entry ----

  /** The displacement that is adjusted. */
  function PlanField(plan: Plan, code: seq<Byte>): Option<(nat, nat)>
    requires IsPlan(plan, code)
  {
    match plan.core
    case By(e, p) => Shifted(plan.skip, Field(e, p, code[plan.skip..]))
    case Near => Some((plan.skip + 1, 1))
    case Unknown => None
  }

  function Shifted(k: nat, field: Option<(nat, nat)>): Option<(nat, nat)> {
    if field.None? then None else Some((k + field.value.0, field.value.1))
  }

  /** The size is that of the format but for `off` bytes, and the displacement is unless it strays. */
  predicate Keeps(plan: Plan, code: seq<Byte>, f: Format, off: int, field: bool)
    requires IsPlan(plan, code)
  {
    && PlanSize(plan, code) == Length(f, code) + off
    && (PlanField(plan, code) == Displacement(f, code) <==> !field)
  }

  lemma EntrySize(code: seq<Byte>, e: Entry, p: Prefixes, f: Format)
    requires Readable(e, code) && Shapes(e, f.modRm, f.immediate, f.relative, p)
    requires f.opcode == if IsMod(e) then e.modOffset else 1
    ensures f.modRm == AnyModRm || !IsMod(e) ==>
              Size(e, p, code) == Length(f, code) && Field(e, p, code) == Displacement(f, code)
    ensures f.modRm == RegisterModRm ==>
              && Size(e, p, code) == Length(f, code) + Operand(At(code, f.opcode), At(code, f.opcode + 1))
              && (Field(e, p, code) == Displacement(f, code) <==> !ModRmRip(At(code, f.opcode)))
  {
    if IsMod(e) {
      ModFollowsFormat(e, p, code);
    } else if IsRelative(e) {
      RelativeFollowsFormat(e, p, code);
    }
  }

  lemma AtBehind(k: nat, code: seq<Byte>, j: nat)
    requires k <= |code|
    ensures At(code[k..], j) == At(code, k + j)
  {
  }

  lemma LengthBehind(k: nat, code: seq<Byte>, f: Format)
    requires k <= |code|
    ensures Length(f.(opcode := k + f.opcode), code) == k + Length(f, code[k..])
    ensures Displacement(f.(opcode := k + f.opcode), code) == Shifted(k, Displacement(f, code[k..]))
  {
    AtBehind(k, code, f.opcode);
    AtBehind(k, code, f.opcode + 1);
  }

  lemma FieldBehind(k: nat, plan: Plan, code: seq<Byte>)
    requires k <= |code| && IsPlan(plan, code[k..]) && IsPlan(Plan(k + plan.skip, plan.core), code)
    ensures PlanField(Plan(k + plan.skip, plan.core), code) == Shifted(k, PlanField(plan, code[k..]))
  {
    assert code[k..][plan.skip..] == code[k + plan.skip..];
  }

  lemma SameBehind(k: nat, a: Option<(nat, nat)>, b: Option<(nat, nat)>)
    ensures Shifted(k, a) == Shifted(k, b) <==> a == b
  {
  }

  lemma BehindKeeps(k: nat, plan: Plan, code: seq<Byte>, f: Format, off: int, field: bool)
    requires k <= |code| && IsPlan(plan, code[k..]) && Keeps(plan, code[k..], f, off, field)
    ensures IsPlan(Plan(k + plan.skip, plan.core), code)
    ensures Keeps(Plan(k + plan.skip, plan.core), code, f.(opcode := k + f.opcode), off, field)
  {
    BehindIsPlan(k, code, plan);
    FieldBehind(k, plan, code);
    LengthBehind(k, code, f);
    SameBehind(k, PlanField(plan, code[k..]), Displacement(f, code[k..]));
  }

  lemma EntryKeeps(code: seq<Byte>, e: Entry, p: Prefixes, f: Format)
    requires code != [] && IsEntry(e) && ByEntry(code, e, p).Some?
    requires Shapes(e, f.modRm, f.immediate, f.relative, p) && f.opcode == if IsMod(e) then e.modOffset else 1
    ensures IsPlan(Plan(0, By(e, p)), code)
    ensures f.modRm != RegisterModRm ==> Keeps(Plan(0, By(e, p)), code, f, 0, false)
    ensures f.modRm == RegisterModRm ==>
              var m := At(code, f.opcode);
              Keeps(Plan(0, By(e, p)), code, f, Operand(m, At(code, f.opcode + 1)), ModRmRip(m))
  {
    EntryIsPlan(code, e, p);
    EntrySize(code, e, p, f);
    assert code[0..] == code;
  }

  // ---- The two-byte map ----

  function Escaped(code: seq<Byte>, p: Prefixes): Option<Format> {
    var c := At(code, 0);
    if c == 0x38 then Some(Format(2, AnyModRm, 0, 0))
    else if c == 0x3a then Some(Format(2, AnyModRm, 1, 0))
    else TwoByte(c, At(code, 1), p)
  }

  lemma EscapedKeeps(code: seq<Byte>, p: Prefixes)
    requires code != [] && Second(code[0]).Opcode? && ByEntry(code, Second(code[0]).e, p).Some?
    requires Escaped(code, p).Some?
    ensures var plan, m := Plan(0, By(Second(code[0]).e, p)), At(code, 1);
            && IsPlan(plan, code)
            && (if IsControl(code[0]) then
                  Keeps(plan, code, Escaped(code, p).value, Operand(m, At(code, 2)), ModRmRip(m))
                else Keeps(plan, code, Escaped(code, p).value, 0, false))
  {
    SecondKinds(code[0]);
    TableEntries(code[0]);
    SecondShapes(code[0], p);
    EntryKeeps(code, Second(code[0]).e, p, Escaped(code, p).value);
  }

  lemma ExtractKeeps(code: seq<Byte>, p: Prefixes, e: Entry)
    requires code != [] && code[0] == 0x78 && Escaped(code, p).Some? && ByEntry(code, e, p).Some?
    requires e == if p.repne || p.operand then COPY4 else COPY2_MOD
    ensures IsPlan(Plan(0, By(e, p)), code) && Keeps(Plan(0, By(e, p)), code, Escaped(code, p).value, 0, false)
  {
    EntryKeeps(code, e, p, if p.repne || p.operand then Format(1, NoModRm, 3, 0) else Escaped(code, p).value);
  }

  lemma SecondKeeps(code: seq<Byte>, p: Prefixes)
    requires code != [] && DecodeSecond(code, p).Some? && Escaped(code, p).Some?
    ensures var plan := DecodeSecond(code, p).value;
            var control := IsControl(code[0]);
            && IsPlan(plan, code) && (plan.core.Unknown? <==> code[0] == 0xb9 || code[0] == 0xff)
            && (plan.core.Unknown? ||
                Keeps(plan, code, Escaped(code, p).value, if control then Operand(At(code, 1), At(code, 2)) else 0,
                      control && ModRmRip(At(code, 1))))
  {
    SecondKinds(code[0]);
    if Second(code[0]).Opcode? {
      EscapedKeeps(code, p);
    } else if Second(code[0]).Extract? {
      ExtractKeeps(code, p, if p.repne || p.operand then COPY4 else COPY2_MOD);
    } else {
      SecondIsPlan(code, p);
    }
  }

  // ---- VEX ----

  lemma VexShapes(b: Byte, p: Prefixes)
    requires IsVex1(b)
    ensures Second(b).Opcode? && IsEntry(Second(b).e)
    ensures var f := Vex(1, b).value;
            Shapes(Second(b).e, f.modRm, f.immediate, f.relative, p) &&
            f.opcode == if IsMod(Second(b).e) then Second(b).e.modOffset else 1
  {
    SecondShapes(b, p);
  }

  lemma Vex1Keeps(code: seq<Byte>, q: Prefixes)
    requires code != [] && IsVex1(code[0]) && DecodeSecond(code, q).Some?
    ensures var plan := DecodeSecond(code, q).value;
            && IsPlan(plan, code) && !plan.core.Unknown?
            && Keeps(plan, code, Vex(1, code[0]).value, 0, false)
  {
    VexShapes(code[0], q);
    EntryKeeps(code, Second(code[0]).e, q, Vex(1, code[0]).value);
  }

  lemma VexKeeps(m: nat, last: Byte, code: seq<Byte>, p: Prefixes)
    requires code != [] && DecodeVex(m, last, code, p).Some? && Vex(m, code[0]).Some?
    ensures var plan := DecodeVex(m, last, code, p).value;
            && IsPlan(plan, code) && !plan.core.Unknown?
            && Keeps(plan, code, Vex(m, code[0]).value, 0, false)
  {
    var q := if last % 4 == 1 then p.(operand := true) else if last % 4 == 3 then p.(repne := true) else p;
    if m == 1 {
      Vex1Keeps(code, q);
    } else {
      EntryKeeps(code, if m == 2 then COPY2_MOD else COPY2_MOD1, q, Vex(m, code[0]).value);
    }
  }

  // ---- The one-byte map ----

  lemma OpcodeKeeps(code: seq<Byte>, p: Prefixes)
    requires code != [] && First(code[0]).Opcode? && ByEntry(code, First(code[0]).e, p).Some?
    ensures var plan := Plan(0, By(First(code[0]).e, p));
            && IsPlan(plan, code) && FormatOf(code, p).Some?
            && Keeps(plan, code, FormatOf(code, p).value, 0, IsXbegin(code[0], At(code, 1)))
  {
    var b := code[0];
    FirstKinds(b);
    FirstShapes(b, p);
    TableEntries(b);
    var f := Format(1, if HasModRm1(b) then AnyModRm else NoModRm, Immediate1(b, p), Relative1(b));
    EntryKeeps(code, First(b).e, p, f);
    assert IsXbegin(b, At(code, 1)) ==> First(b).e == COPY2_MOD_OPERAND;
  }

  /** The immediate that the decoder sees behind a TEST. */
  function TestImmediate(code: seq<Byte>, p: Prefixes): nat
    requires 2 <= |code|
  {
    if !IsTest(code[1]) then 0 else if code[0] == 0xf6 then 1 else Word(p)
  }

  lemma TestFormat(code: seq<Byte>, p: Prefixes)
    requires 2 <= |code| && (code[0] == 0xf6 || code[0] == 0xf7)
    ensures FormatOf(code, p).Some?
    ensures FormatOf(code, p).value == Format(1, AnyModRm, TestImmediate(code, p) - SizeOff(code, p, p), 0)
  {
  }

  lemma TestEntry(code: seq<Byte>, p: Prefixes, e: Entry)
    requires 2 <= |code| && (code[0] == 0xf6 || code[0] == 0xf7) && ByEntry(code, e, p).Some?
    requires e == if !IsTest(code[1]) then COPY2_MOD else if code[0] == 0xf6 then COPY2_MOD1 else COPY2_MOD_OPERAND
    ensures IsPlan(Plan(0, By(e, p)), code)
    ensures Keeps(Plan(0, By(e, p)), code, Format(1, AnyModRm, TestImmediate(code, p), 0), 0, false)
  {
    EntryKeeps(code, e, p, Format(1, AnyModRm, TestImmediate(code, p), 0));
  }

  lemma LessImmediate(plan: Plan, code: seq<Byte>, n: nat, less: int)
    requires IsPlan(plan, code) && Keeps(plan, code, Format(1, AnyModRm, n, 0), 0, false) && 0 <= n - less
    ensures Keeps(plan, code, Format(1, AnyModRm, n - less, 0), less, false)
  {
  }

  lemma TestKeeps(code: seq<Byte>, p: Prefixes)
    requires code != [] && (code[0] == 0xf6 || code[0] == 0xf7) && DecodeKind(First(code[0]), code, p).Some?
    ensures var plan := DecodeKind(First(code[0]), code, p).value;
            && IsPlan(plan, code) && FormatOf(code, p).Some? && !plan.core.Unknown?
            && Keeps(plan, code, FormatOf(code, p).value, SizeOff(code, p, p), false)
  {
    FirstKinds(code[0]);
    var e := if !IsTest(code[1]) then COPY2_MOD else if code[0] == 0xf6 then COPY2_MOD1 else COPY2_MOD_OPERAND;
    TestEntry(code, p, e);
    TestFormat(code, p);
    LessImmediate(Plan(0, By(e, p)), code, TestImmediate(code, p), SizeOff(code, p, p));
  }

  lemma JumpKeeps(code: seq<Byte>, p: Prefixes)
    requires 2 <= |code| && (0x70 <= code[0] < 0x80 || code[0] == 0xeb)
    ensures IsPlan(Plan(0, Near), code) && FormatOf(code, p).Some?
    ensures Keeps(Plan(0, Near), code, FormatOf(code, p).value, 0, false)
  {
    assert code[0..] == code;
  }

  // ---- Behind the prefixes ----

  /** What is decoded is of the format, unless it strays. */
  predicate Decodes(code: seq<Byte>, plan: Plan, f: Format, off: int) {
    && IsPlan(plan, code) && (plan.core.Unknown? <==> IsRefused(code))
    && (IsRefused(code) || Keeps(plan, code, f, off, FieldStrays(code)))
  }

  lemma EscapeDecodes(code: seq<Byte>, p: Prefixes)
    requires code != [] && code[0] == 0x0f && DecodeKind(Escape, code, p).Some? && FormatOf(code, p).Some?
    ensures Decodes(code, DecodeKind(Escape, code, p).value, FormatOf(code, p).value, ControlOff(code))
  {
    var rest := code[1..];
    AtBehind(1, code, 0);
    AtBehind(1, code, 1);
    AtBehind(1, code, 2);
    SecondKeeps(rest, p);
    var plan := DecodeSecond(rest, p).value;
    BehindIsPlan(1, code, plan);
    if !plan.core.Unknown? {
      BehindKeeps(1, plan, code, Escaped(rest, p).value, ControlOff(code), FieldStrays(code));
    }
  }

  lemma VexKept(code: seq<Byte>, plan: Plan, f: Format)
    requires code != [] && (code[0] == 0xc4 || code[0] == 0xc5)
    requires IsPlan(plan, code) && !plan.core.Unknown? && Keeps(plan, code, f, 0, false)
    ensures Decodes(code, plan, f, 0)
  {
  }

  lemma VexBehind1(k: nat, code: seq<Byte>, plan: Plan, f: Format)
    requires k < |code| && (code[0] == 0xc4 || code[0] == 0xc5)
    requires IsPlan(plan, code[k..]) && !plan.core.Unknown? && Keeps(plan, code[k..], f, 0, false) == true
    ensures Decodes(code, Plan(k + plan.skip, plan.core), f.(opcode := k + f.opcode), 0) == true
  {
    BehindKeeps(k, plan, code, f, 0, false);
    VexKept(code, Plan(k + plan.skip, plan.core), f.(opcode := k + f.opcode));
  }

  lemma VexBehindDecodes(k: nat, m: nat, last: Byte, code: seq<Byte>, p: Prefixes)
    requires k < |code| && (code[0] == 0xc4 || code[0] == 0xc5)
    requires DecodeVex(m, last, code[k..], p).Some? && Vex(m, code[k]).Some?
    ensures var plan, f := Behind(k, DecodeVex(m, last, code[k..], p)).value, Longer(k, Vex(m, code[k])).value;
            Decodes(code, plan, f, 0) == true
  {
    VexKeeps(m, last, code[k..], p);
    VexBehind1(k, code, DecodeVex(m, last, code[k..], p).value, Vex(m, code[k]).value);
  }

  lemma VexDecodes(code: seq<Byte>, p: Prefixes)
    requires code != [] && (code[0] == 0xc4 || code[0] == 0xc5) && DecodeKind(First(code[0]), code, p).Some?
    requires FormatOf(code, p).Some?
    ensures Decodes(code, DecodeKind(First(code[0]), code, p).value, FormatOf(code, p).value, 0)
  {
    FirstKinds(code[0]);
    if code[0] == 0xc5 {
      VexBehindDecodes(2, 1, code[1], code, p);
    } else {
      VexBehindDecodes(3, code[1] % 0x20, code[2], code, p.(wide := p.wide || code[2] >= 0x80));
    }
  }

  lemma KindDecodes(code: seq<Byte>, p: Prefixes)
    requires code != [] && !First(code[0]).Prefix? && DecodeKind(First(code[0]), code, p).Some?
    requires FormatOf(code, p).Some?
    ensures Decodes(code, DecodeKind(First(code[0]), code, p).value, FormatOf(code, p).value,
                    SizeOff(code, p, p))
  {
    FirstKinds(code[0]);
    if code[0] == 0x0f {
      EscapeDecodes(code, p);
    } else if code[0] == 0xc4 || code[0] == 0xc5 {
      VexDecodes(code, p);
    } else if code[0] == 0xf6 || code[0] == 0xf7 {
      TestKeeps(code, p);
    } else if First(code[0]).ShortJump? {
      JumpKeeps(code, p);
    } else {
      OpcodeKeeps(code, p);
    }
  }

  lemma WideOneByte(code: seq<Byte>, b: Byte, c: Byte, p: Prefixes, q: Prefixes)
    requires SameButWide(p, q) && b != 0x0f
    ensures OneByte(b, c, p).Some? <==> OneByte(b, c, q).Some?
    ensures OneByte(b, c, q).Some? ==>
              var f, g := OneByte(b, c, p).value, OneByte(b, c, q).value;
              && f.opcode == g.opcode && f.modRm == g.modRm
              && f.immediate + f.relative + (if !IsOtherTest(b, c) then WideOff(b, c, p, p)
                                             else if b == 0xf6 then -1 else 0 - Word(p)) ==
                 g.immediate + g.relative + (if !IsOtherTest(b, c) then WideOff(b, c, p, q)
                                             else if b == 0xf6 then -1 else 0 - Word(q))
              && (f.relative == g.relative || IsXbegin(b, c))
  {
  }

  /** REX.W changes the format in the size of immediates only. */
  lemma WideFormat(code: seq<Byte>, p: Prefixes, q: Prefixes)
    requires code != [] && SameButWide(p, q)
    ensures FormatOf(code, p).Some? <==> FormatOf(code, q).Some?
    ensures FormatOf(code, q).Some? ==>
              var f, g := FormatOf(code, p).value, FormatOf(code, q).value;
              && Length(f, code) + SizeOff(code, p, p) == Length(g, code) + SizeOff(code, p, q)
              && (Displacement(f, code) == Displacement(g, code) || IsXbegin(code[0], At(code, 1)))
  {
    if code[0] != 0x0f && code[0] != 0xc4 && code[0] != 0xc5 {
      WideOneByte(code, code[0], At(code, 1), p, q);
    }
  }

  lemma WideDecodes(code: seq<Byte>, p: Prefixes, q: Prefixes)
    requires code != [] && !First(code[0]).Prefix? && DecodeKind(First(code[0]), code, p).Some?
    requires SameButWide(p, q) && FormatOf(code, q).Some?
    ensures Decodes(code, DecodeKind(First(code[0]), code, p).value, FormatOf(code, q).value,
                    SizeOff(code, p, q))
  {
    WideFormat(code, p, q);
    KindDecodes(code, p);
  }

  // ---- With the prefixes ----

  /** What the decoder notes of prefixes: REX.W wherever it is. */
  ghost function SeenIn(s: seq<Byte>): Prefixes {
    Prefixes(0x66 in s, 0x67 in s, exists i | 0 <= i < |s| :: IsRexW(s[i]), 0xf2 in s)
  }

  ghost predicate Notes(p: Prefixes, s: seq<Byte>, q: Prefixes) {
    && q.operand == (p.operand || 0x66 in s) && q.addr == (p.addr || 0x67 in s)
    && q.wide == (p.wide || exists i | 0 <= i < |s| :: IsRexW(s[i])) && q.repne == (p.repne || 0xf2 in s)
  }

  lemma NotesOne(p: Prefixes, b: Byte, s: seq<Byte>, q: Prefixes)
    requires Notes(Seen(p, b), s, q)
    ensures Notes(p, [b] + s, q)
  {
    var t := [b] + s;
    if IsRexW(b) {
      assert IsRexW(t[0]);
    } else if i :| 0 <= i < |s| && IsRexW(s[i]) {
      assert IsRexW(t[i + 1]);
    }
  }

  /** The opcode and what follows it. */
  function Rest(code: seq<Byte>): seq<Byte> {
    code[Prefixed(code)..]
  }

  /** What is decoded behind the prefixes. */
  function Bare(rest: seq<Byte>, q: Prefixes): Option<Plan> {
    if rest == [] then None else DecodeKind(First(rest[0]), rest, q)
  }

  lemma NoneBehind(code: seq<Byte>, p: Prefixes)
    requires code != [] && !First(code[0]).Prefix?
    ensures Prefixed(code) == 0 && Rest(code) == code && Decode(code, p) == Behind(0, Bare(code, p))
  {
    FirstKinds(code[0]);
  }

  lemma OneBehind(code: seq<Byte>, rest: seq<Byte>)
    requires code != [] && First(code[0]).Prefix? && rest == code[1..]
    ensures Prefixed(code) == 1 + Prefixed(rest) && Rest(code) == Rest(rest)
    ensures code[..Prefixed(code)] == [code[0]] + rest[..Prefixed(rest)]
  {
    FirstKinds(code[0]);
  }

  lemma BehindTwice(n: nat, inner: Option<Plan>)
    ensures Behind(1, Behind(n, inner)) == Behind(1 + n, inner)
  {
  }

  lemma {:induction false} PrefixesBehind(code: seq<Byte>, p: Prefixes) returns (q: Prefixes)
    ensures Notes(p, code[..Prefixed(code)], q)
    ensures Decode(code, p) == Behind(Prefixed(code), Bare(Rest(code), q))
    ensures Rest(code) != [] ==> !First(Rest(code)[0]).Prefix?
    decreases |code|
  {
    q := p;
    if code != [] {
      if First(code[0]).Prefix? {
        var rest := code[1..];
        q := PrefixesBehind(rest, Seen(p, code[0]));
        OneBehind(code, rest);
        BehindTwice(Prefixed(rest), Bare(Rest(rest), q));
        NotesOne(p, code[0], rest[..Prefixed(rest)], q);
        DecodePrefix(code, rest, code[0], p);
      } else {
        NoneBehind(code, p);
      }
    }
  }

  lemma FromNone(s: seq<Byte>, q: Prefixes)
    requires Notes(NO_PREFIX, s, q)
    ensures q == SeenIn(s)
  {
  }

  /** Decoding is noting the prefixes, and decoding what is behind them. */
  lemma DecodeBehind(code: seq<Byte>)
    ensures Decode(code, NO_PREFIX) == Behind(Prefixed(code), Bare(Rest(code), SeenIn(code[..Prefixed(code)])))
    ensures Rest(code) != [] ==> !First(Rest(code)[0]).Prefix?
    ensures SameButWide(SeenIn(code[..Prefixed(code)]), Effective(code[..Prefixed(code)]))
  {
    var q := PrefixesBehind(code, NO_PREFIX);
    var s := code[..Prefixed(code)];
    FromNone(s, q);
    assert s != [] && IsRexW(s[|s| - 1]) ==> exists i | 0 <= i < |s| :: IsRexW(s[i]);
  }

  /** The plan is of the format, behind `n` prefixes: it is for no opcode exactly for UD0 and UD1, and otherwise the
      size is that of the format but for `off` bytes, and the displacement that is adjusted is the one that is
      relative, except for XBEGIN and moves of control registers. */
  predicate IsOfFormat(plan: Plan, code: seq<Byte>, n: nat, rest: seq<Byte>, f: Format, off: int) {
    && IsPlan(plan, code) && (plan.core.Unknown? <==> IsRefused(rest))
    && (IsRefused(rest) ||
        (&& PlanSize(plan, code) == n + Length(f, rest) + off
         && (PlanField(plan, code) == Shifted(n, Displacement(f, rest)) <==> !FieldStrays(rest))))
  }

  lemma DecodesBehind(n: nat, code: seq<Byte>, rest: seq<Byte>, plan: Plan, f: Format, off: int)
    requires n <= |code| && rest == code[n..] && Decodes(rest, plan, f, off)
    ensures IsOfFormat(Plan(n + plan.skip, plan.core), code, n, rest, f, off) == true
  {
    BehindIsPlan(n, code, plan);
    FieldBehind(n, plan, code);
    SameBehind(n, PlanField(plan, rest), Displacement(f, rest));
  }

  function FormatHere(code: seq<Byte>): Option<Format> {
    FormatOf(Rest(code), Effective(code[..Prefixed(code)]))
  }

  /** By how many bytes the size decoded is off. */
  ghost function Off(code: seq<Byte>): int {
    var s := code[..Prefixed(code)];
    SizeOff(Rest(code), SeenIn(s), Effective(s))
  }

  /** What is decoded behind the prefixes is of the format. */
  lemma KindHere(code: seq<Byte>) returns (inner: Option<Plan>)
    requires Rest(code) != [] && FormatHere(code).Some?
    ensures Decode(code, NO_PREFIX) == Behind(Prefixed(code), inner)
    ensures inner.Some? ==> Decodes(Rest(code), inner.value, FormatHere(code).value, Off(code)) == true
  {
    var s := code[..Prefixed(code)];
    DecodeBehind(code);
    inner := Bare(Rest(code), SeenIn(s));
    if inner.Some? {
      WideDecodes(Rest(code), SeenIn(s), Effective(s));
    }
  }

  /** Whatever code is decoded as, it is what the format says, wherever the manuals have one. */
  lemma DecodesByFormat(code: seq<Byte>)
    requires Rest(code) != [] && FormatHere(code).Some? && Decode(code, NO_PREFIX).Some?
    ensures IsOfFormat(Decode(code, NO_PREFIX).value, code, Prefixed(code), Rest(code), FormatHere(code).value,
                       Off(code)) == true
  {
    var inner := KindHere(code);
    DecodesBehind(Prefixed(code), code, Rest(code), inner.value, FormatHere(code).value, Off(code));
  }

  // ---- Whole instructions ----

  lemma EntryTaken(code: seq<Byte>, e: Entry, p: Prefixes, f: Format)
    requires code != [] && IsEntry(e) && Length(f, code) <= |code|
    requires Shapes(e, f.modRm, f.immediate, f.relative, p) && f.opcode == if IsMod(e) then e.modOffset else 1
    requires f.modRm == RegisterModRm ==>
               Length(f, code) + Operand(At(code, f.opcode), At(code, f.opcode + 1)) <= |code|
    ensures ByEntry(code, e, p).Some?
  {
    EntrySize(code, e, p, f);
  }

  lemma SecondTaken(code: seq<Byte>, p: Prefixes)
    requires code != [] && Escaped(code, p).Some? && Length(Escaped(code, p).value, code) <= |code|
    requires IsControl(code[0]) ==> 2 + Operand(At(code, 1), At(code, 2)) <= |code|
    ensures DecodeSecond(code, p).Some?
  {
    SecondKinds(code[0]);
    TableEntries(code[0]);
    var f := Escaped(code, p).value;
    if Second(code[0]).Opcode? {
      SecondShapes(code[0], p);
      EntryTaken(code, Second(code[0]).e, p, f);
    } else if Second(code[0]).Extract? {
      EntryTaken(code, if p.repne || p.operand then COPY4 else COPY2_MOD, p,
                 if p.repne || p.operand then Format(1, NoModRm, 3, 0) else f);
    }
  }

  lemma VexTaken(m: nat, last: Byte, code: seq<Byte>, p: Prefixes)
    requires code != [] && Vex(m, code[0]).Some? && Length(Vex(m, code[0]).value, code) <= |code|
    ensures DecodeVex(m, last, code, p).Some?
  {
    var q := if last % 4 == 1 then p.(operand := true) else if last % 4 == 3 then p.(repne := true) else p;
    var f := Vex(m, code[0]).value;
    if m == 1 {
      VexShapes(code[0], q);
      EntryTaken(code, Second(code[0]).e, q, f);
    } else {
      EntryTaken(code, if m == 2 then COPY2_MOD else COPY2_MOD1, q, f);
    }
  }

  lemma EscapeTaken(code: seq<Byte>, p: Prefixes)
    requires code != [] && code[0] == 0x0f && FormatOf(code, p).Some?
    requires Length(FormatOf(code, p).value, code) <= |code|
    requires Length(FormatOf(code, p).value, code) + ControlOff(code) <= |code|
    ensures DecodeKind(Escape, code, p).Some?
  {
    AtBehind(1, code, 0);
    AtBehind(1, code, 1);
    AtBehind(1, code, 2);
    LengthBehind(1, code, Escaped(code[1..], p).value);
    SecondTaken(code[1..], p);
  }

  lemma VexBehindTaken(k: nat, m: nat, last: Byte, code: seq<Byte>, p: Prefixes)
    requires k <= |code| && Vex(m, At(code, k)).Some? && Length(Longer(k, Vex(m, At(code, k))).value, code) <= |code|
    ensures k < |code| && DecodeVex(m, last, code[k..], p).Some?
  {
    LengthBehind(k, code, Vex(m, At(code, k)).value);
    VexTaken(m, last, code[k..], p);
  }

  /** Code that is long enough is decoded. */
  lemma KindTaken(code: seq<Byte>, p: Prefixes)
    requires code != [] && !First(code[0]).Prefix? && FormatOf(code, p).Some?
    requires Length(FormatOf(code, p).value, code) <= |code|
    requires Length(FormatOf(code, p).value, code) + SizeOff(code, p, p) <= |code|
    ensures DecodeKind(First(code[0]), code, p).Some?
  {
    FirstKinds(code[0]);
    if code[0] == 0x0f {
      EscapeTaken(code, p);
    } else if code[0] == 0xc5 {
      VexBehindTaken(2, 1, code[1], code, p);
    } else if code[0] == 0xc4 {
      VexBehindTaken(3, code[1] % 0x20, code[2], code, p.(wide := p.wide || code[2] >= 0x80));
    } else if code[0] == 0xf6 || code[0] == 0xf7 {
      var e := if !IsTest(code[1]) then COPY2_MOD else if code[0] == 0xf6 then COPY2_MOD1 else COPY2_MOD_OPERAND;
      EntryTaken(code, e, p, Format(1, AnyModRm, Immediate(e, p), 0));
    } else if First(code[0]).Opcode? {
      OpcodeTaken(code, p);
    }
  }

  lemma OpcodeTaken(code: seq<Byte>, p: Prefixes)
    requires code != [] && First(code[0]).Opcode? && FormatOf(code, p).Some?
    requires Length(FormatOf(code, p).value, code) <= |code|
    ensures ByEntry(code, First(code[0]).e, p).Some?
  {
    var b := code[0];
    TableEntries(b);
    FirstShapes(b, p);
    EntryTaken(code, First(b).e, p,
               Format(1, if HasModRm1(b) then AnyModRm else NoModRm, Immediate1(b, p), Relative1(b)));
  }

  lemma NoOff(code: seq<Byte>, p: Prefixes, q: Prefixes)
    requires SameButWide(p, q) && SizeOff(code, p, q) == 0
    ensures SizeOff(code, p, p) == 0
  {
  }

  lemma WideTaken(code: seq<Byte>, p: Prefixes, q: Prefixes)
    requires code != [] && !First(code[0]).Prefix? && SameButWide(p, q) && SizeOff(code, p, q) == 0
    requires FormatOf(code, q).Some? && Length(FormatOf(code, q).value, code) <= |code|
    ensures DecodeKind(First(code[0]), code, p).Some?
  {
    WideFormat(code, p, q);
    NoOff(code, p, q);
    KindTaken(code, p);
  }

  lemma Taken(code: seq<Byte>)
    requires Rest(code) != [] && FormatHere(code).Some? && Off(code) == 0
    requires Prefixed(code) + Length(FormatHere(code).value, Rest(code)) <= |code|
    ensures Decode(code, NO_PREFIX).Some?
  {
    var s := code[..Prefixed(code)];
    DecodeBehind(code);
    WideTaken(Rest(code), SeenIn(s), Effective(s));
  }

  /** One instruction by the manuals. */
  predicate IsFormatted(s: seq<Byte>) {
    Rest(s) != [] && FormatHere(s).Some? && |s| == Prefixed(s) + Length(FormatHere(s).value, Rest(s)) <= MAX_SIZE
  }

  /** The decoder takes for one instruction exactly what is one by the manuals, unless its size is off; and then it
      never does. */
  lemma InstructionIff(s: seq<Byte>)
    requires Rest(s) != [] && FormatHere(s).Some? && !IsRefused(Rest(s))
    ensures Off(s) == 0 ==> (IsInstruction(s) <==> IsFormatted(s))
    ensures Off(s) != 0 ==> !(IsInstruction(s) && IsFormatted(s))
  {
    if Decode(s, NO_PREFIX).Some? {
      DecodesByFormat(s);
    } else if Off(s) == 0 && IsFormatted(s) {
      Taken(s);
    }
  }

  /** The decoder keeps to the manuals for what begins like this. */
  ghost predicate IsRegular(s: seq<Byte>) {
    Rest(s) != [] && FormatHere(s).Some? && !IsRefused(Rest(s)) && Off(s) == 0
  }

  // ---- Instructions that the decoder takes for others ----

  lemma Plain(s: seq<Byte>)
    requires s != [] && !(IsLegacy(s[0]) || IsRex(s[0]))
    ensures Prefixed(s) == 0 && Rest(s) == s && Off(s) == SizeOff(s, NO_PREFIX, NO_PREFIX)
  {
    assert s[..0] == [];
  }

  /** ADD AX, imm16 with a REX.W in front of the operand size prefix, which has five bytes: seven are taken. */
  lemma WideExample(s: seq<Byte>)
    requires s == [0x48, 0x66, 0x05, 0x34, 0x12]
    ensures IsFormatted(s) && Off(s) == 2
  {
    var p := [0x48, 0x66];
    assert s[1..] == [0x66, 0x05, 0x34, 0x12] && s[1..][1..] == [0x05, 0x34, 0x12];
    assert Prefixed(s[1..][1..]) == 0 && Prefixed(s[1..]) == 1 && Prefixed(s) == 2;
    assert s[..2] == p && s[2..] == [0x05, 0x34, 0x12];
    assert IsRexW(p[0]) && SeenIn(p).wide && !Effective(p).wide && p[1] in p;
  }

  /** TEST CL, 1 in its second encoding, of three bytes: two are taken. MOV RBP, CR0 with a mode that is ignored, of
      three bytes: seven are taken, of which the last four are adjusted. */
  lemma OtherExamples(test: seq<Byte>, move: seq<Byte>)
    requires test == [0xf6, 0xc9, 1] && move == [0x0f, 0x20, 0x05]
    ensures IsFormatted(test) && Off(test) == -1
    ensures IsFormatted(move) && Off(move) == 4 && FieldStrays(Rest(move))
  {
    Plain(test);
    Plain(move);
  }

  /** XBEGIN, whose target is not adjusted; UD1, which is taken for no opcode. */
  lemma MoreExamples(begin: seq<Byte>, ud: seq<Byte>)
    requires begin == [0xc7, 0xf8, 0, 0, 0, 0] && ud == [0x0f, 0xb9, 0xc0]
    ensures IsFormatted(begin) && FieldStrays(Rest(begin)) && Off(begin) == 0
    ensures IsFormatted(ud) && IsRefused(Rest(ud))
  {
    Plain(begin);
    Plain(ud);
  }

  // ---- Undefined opcodes ----

  /** Opcodes that the manuals do not define and the tables do: 0F A6 and 0F A7, EXTRQ and INSERTQ of memory, and with
      a VEX prefix any that they have without. */
  predicate IsTolerated(code: seq<Byte>, p: Prefixes) {
    var b, c := At(code, 0), At(code, 1);
    if b == 0x0f then c == 0xa6 || c == 0xa7 || IsExtract(c, p)
    else if b == 0xc5 then IsListed(At(code, 2))
    else b == 0xc4 && c % 0x20 == 1 && IsListed(At(code, 3))
  }

  predicate IsListed(b: Byte) {
    b != 0xb9 && b != 0xff && (Undefined2(b) ==> b == 0xa6 || b == 0xa7)
  }

  lemma VexUndefined(m: nat, last: Byte, code: seq<Byte>, p: Prefixes)
    requires code != [] && Vex(m, code[0]).None? && DecodeVex(m, last, code, p).Some?
    ensures DecodeVex(m, last, code, p).value.core.Unknown? <==> !(m == 1 && IsListed(code[0]))
  {
    SecondKinds(code[0]);
  }

  lemma KindUndefined(code: seq<Byte>, p: Prefixes)
    requires code != [] && !First(code[0]).Prefix? && DecodeKind(First(code[0]), code, p).Some?
    requires FormatOf(code, p).None?
    ensures DecodeKind(First(code[0]), code, p).value.core.Unknown? <==> !IsTolerated(code, p)
  {
    FirstKinds(code[0]);
    if code[0] == 0x0f {
      SecondKinds(code[1]);
    } else if code[0] == 0xc5 {
      VexUndefined(1, code[1], code[2..], p);
    } else if code[0] == 0xc4 {
      VexUndefined(code[1] % 0x20, code[2], code[3..], p.(wide := p.wide || code[2] >= 0x80));
    } else if First(code[0]).Opcode? {
      FirstShapes(code[0], p);
    }
  }

  /** Of what the manuals do not define, the decoder takes exactly the opcodes above. */
  lemma UndefinedIsUnknown(code: seq<Byte>)
    requires Rest(code) != [] && FormatHere(code).None? && Decode(code, NO_PREFIX).Some?
    ensures Decode(code, NO_PREFIX).value.core.Unknown? <==>
            !IsTolerated(Rest(code), Effective(code[..Prefixed(code)]))
  {
    var s := code[..Prefixed(code)];
    DecodeBehind(code);
    WideFormat(Rest(code), SeenIn(s), Effective(s));
    KindUndefined(Rest(code), SeenIn(s));
  }

  // ---- Jumps ----

  /** Short jumps are widened; the loops and JRCXZ are the ones that cannot be. */
  lemma JumpsGrow(s: seq<Byte>)
    requires IsInstruction(s)
    ensures var b := At(Rest(s), 0);
            && (PlanOf(s).core.Near? <==> 0x70 <= b < 0x80 || b == 0xeb)
            && (CannotGrow(s) <==> 0xe0 <= b < 0xe4)
  {
    DecodeBehind(s);
    KindGrows(Rest(s), SeenIn(s[..Prefixed(s)]));
  }

  lemma KindGrows(code: seq<Byte>, p: Prefixes)
    requires code != [] && !First(code[0]).Prefix? && DecodeKind(First(code[0]), code, p).Some?
    ensures var core := DecodeKind(First(code[0]), code, p).value.core;
            && (core.Near? <==> 0x70 <= code[0] < 0x80 || code[0] == 0xeb)
            && (CoreCannotGrow(core) <==> 0xe0 <= code[0] < 0xe4)
  {
    FirstKinds(code[0]);
    if code[0] == 0x0f {
      SecondGrows(code[1..], p);
    } else if code[0] == 0xc5 {
      VexGrows(1, code[1], code[2..], p);
    } else if code[0] == 0xc4 {
      VexGrows(code[1] % 0x20, code[2], code[3..], p.(wide := p.wide || code[2] >= 0x80));
    } else if First(code[0]).Opcode? {
      FirstGrows(code[0]);
    }
  }

  lemma FirstGrows(b: Byte)
    requires First(b).Opcode?
    ensures First(b).e.noEnlarge <==> 0xe0 <= b < 0xe4
  {
  }

  lemma SecondGrows(code: seq<Byte>, p: Prefixes)
    requires DecodeSecond(code, p).Some?
    ensures var core := DecodeSecond(code, p).value.core;
            !core.Near? && !CoreCannotGrow(core)
  {
  }

  lemma VexGrows(m: nat, last: Byte, code: seq<Byte>, p: Prefixes)
    requires DecodeVex(m, last, code, p).Some?
    ensures var core := DecodeVex(m, last, code, p).value.core;
            !core.Near? && !CoreCannotGrow(core)
  {
  }
}
