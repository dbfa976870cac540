/** The x64 disassembler: what the bytes of an instruction say about its size and its copy. */
module X64Decode {
  import opened Prelude
  import opened Addresses
  import opened X64Copy

  // ---- The opcode tables ----

  /** What a byte is: an opcode with its entry, a short jump, a prefix, the escape to the second table, a VEX
      prefix, an opcode whose entry depends on more, or none. */
  datatype Kind = Opcode(e: Entry) | ShortJump | Prefix | Escape | Vex2 | Vex3 | ByteTest | WordTest | Extract |
                  NoOpcode

  /** s_rceCopyTable. */
  function First(b: Byte): Kind {
    if b == 0x0f then Escape
    else if b < 0x40 then
      if b % 8 < 4 then Opcode(COPY2_MOD)
      else if b % 8 == 4 then Opcode(COPY2)
      else if b % 8 == 5 then Opcode(COPY3_OR5)
      else if b in {0x26, 0x2e, 0x36, 0x3e} then Prefix
      else NoOpcode
    else if b < 0x50 then Prefix
    else if b < 0x70 then
      if b < 0x60 then Opcode(COPY1)
      else if b < 0x63 then NoOpcode
      else if b == 0x63 then Opcode(COPY2_MOD)
      else if b < 0x68 then Prefix
      else if b == 0x68 then Opcode(COPY3_OR5)
      else if b == 0x69 then Opcode(COPY2_MOD_OPERAND)
      else if b == 0x6a then Opcode(COPY2)
      else if b == 0x6b then Opcode(COPY2_MOD1)
      else Opcode(COPY1)
    else if b < 0x80 then ShortJump
    else if b < 0xc0 then Middle(b)
    else Last(b)
  }

  function Middle(b: Byte): Kind {
    if b < 0x90 then
      if b == 0x81 then Opcode(COPY2_MOD_OPERAND)
      else if b == 0x82 then NoOpcode
      else if b < 0x84 then Opcode(COPY2_MOD1)
      else Opcode(COPY2_MOD)
    else if b < 0xb0 then
      if b == 0x9a then NoOpcode
      else if 0xa0 <= b < 0xa4 then Opcode(COPY1_ADDRESS)
      else if b == 0xa8 then Opcode(COPY2)
      else if b == 0xa9 then Opcode(COPY3_OR5)
      else Opcode(COPY1)
    else if b < 0xb8 then Opcode(COPY2)
    else Opcode(COPY3_OR5_RAX)
  }

  function Last(b: Byte): Kind {
    if b < 0xd0 then
      if b < 0xc2 || b == 0xc6 then Opcode(COPY2_MOD1)
      else if b == 0xc4 then Vex3
      else if b == 0xc5 then Vex2
      else if b == 0xc7 then Opcode(COPY2_MOD_OPERAND)
      else if b == 0xc8 then Opcode(COPY4)
      else if b == 0xc2 || b == 0xca then Opcode(COPY3)
      else if b == 0xcd then Opcode(COPY2)
      else if b == 0xce then NoOpcode
      else Opcode(COPY1)
    else if b < 0xe0 then
      if 0xd4 <= b < 0xd7 then NoOpcode
      else if b == 0xd7 then Opcode(COPY1)
      else Opcode(COPY2_MOD)
    else if b < 0xf0 then
      if b < 0xe4 then Opcode(COPY2_CANT_JUMP)
      else if b < 0xe8 then Opcode(COPY2)
      else if b < 0xea then Opcode(COPY5_TARGET)
      else if b == 0xea then NoOpcode
      else if b == 0xeb then ShortJump
      else Opcode(COPY1)
    else if b == 0xf0 || b == 0xf2 || b == 0xf3 then Prefix
    else if b == 0xf6 then ByteTest
    else if b == 0xf7 then WordTest
    else if b >= 0xfe then Opcode(COPY2_MOD)
    else Opcode(COPY1)
  }

  /** s_rceCopyTable0F. */
  function Second(b: Byte): Kind {
    if b < 0x40 then
      if b in {0x04, 0x0a, 0x0c, 0x24, 0x25, 0x26, 0x27, 0x36, 0x39} || b >= 0x3b then NoOpcode
      else if 0x05 <= b < 0x0c || b == 0x0e || 0x30 <= b < 0x38 then Opcode(COPY1)
      else if b == 0x0f then Opcode(COPY2_MOD1)
      else if b == 0x38 then Opcode(COPY3_MOD)
      else if b == 0x3a then Opcode(COPY3_MOD1)
      else Opcode(COPY2_MOD)
    else if b < 0x80 then
      if 0x70 <= b < 0x74 then Opcode(COPY2_MOD1)
      else if b == 0x77 then Opcode(COPY1)
      else if b == 0x78 then Extract
      else if b == 0x7a || b == 0x7b then NoOpcode
      else Opcode(COPY2_MOD)
    else if b < 0x90 then Opcode(COPY5_TARGET)
    else if b == 0xb9 || b == 0xff then NoOpcode
    else if 0xa0 <= b < 0xa3 || 0xa8 <= b < 0xab || 0xc8 <= b < 0xd0 then Opcode(COPY1)
    else if b in {0xa4, 0xac, 0xba, 0xc2, 0xc4, 0xc5, 0xc6} then Opcode(COPY2_MOD1)
    else Opcode(COPY2_MOD)
  }

  predicate IsEntry(e: Entry) {
    IsFixed(e) || IsMod(e) || IsRelative(e)
  }

  lemma TableEntries(b: Byte)
    ensures First(b).Opcode? ==> IsEntry(First(b).e)
    ensures Second(b).Opcode? ==> IsEntry(Second(b).e)
    ensures First(b) == ShortJump ==> b == 0xeb || 0x70 <= b <= 0x7f
    ensures !Second(b).ShortJump?
  {
  }

  // ---- Prefixes and opcodes ----

  const NO_PREFIX := Prefixes(false, false, false, false)

  /** How an instruction is copied: as many bytes as they are, and then by an entry of the tables, as a near jump, or
      not at all. */
  datatype Core = By(e: Entry, p: Prefixes) | Near | Unknown
  datatype Plan = Plan(skip: nat, core: Core)

  /** The prefixes with one more. */
  function Seen(p: Prefixes, b: Byte): Prefixes {
    if b == 0x66 then p.(operand := true)
    else if b == 0x67 then p.(addr := true)
    else if b == 0xf2 then p.(repne := true)
    else if 0x48 <= b < 0x50 then p.(wide := true)
    else p
  }

  function Behind(n: nat, plan: Option<Plan>): Option<Plan> {
    if plan.None? then None else Some(Plan(n + plan.value.skip, plan.value.core))
  }

  /** The entry, if the code is long enough for it. */
  function ByEntry(code: seq<Byte>, e: Entry, p: Prefixes): Option<Plan> {
    if Readable(e, code) && Size(e, p, code) <= |code| then Some(Plan(0, By(e, p))) else None
  }

  /** CopyInstruction and what it calls: none if the code is too short for an instruction that begins as it does. */
  function Decode(code: seq<Byte>, p: Prefixes): Option<Plan>
    decreases |code|
  {
    if code == [] then None
    else if First(code[0]) == Prefix then Behind(1, Decode(code[1..], Seen(p, code[0])))
    else DecodeKind(First(code[0]), code, p)
  }

  /** What is behind the prefixes. */
  function DecodeKind(kind: Kind, code: seq<Byte>, p: Prefixes): Option<Plan>
    requires code != []
  {
    match kind
    case Escape => Behind(1, DecodeSecond(code[1..], p))
    case Vex2 => if |code| < 3 then None else Behind(2, DecodeVex(1, code[1], code[2..], p))
    case Vex3 =>
      if |code| < 4 then None
      else Behind(3, DecodeVex(code[1] % 0x20, code[2], code[3..], p.(wide := p.wide || code[2] >= 0x80)))
    case ShortJump => if |code| < 2 then None else Some(Plan(0, Near))
    case ByteTest =>
      if |code| < 2 then None else ByEntry(code, if IsTest(code[1]) then COPY2_MOD1 else COPY2_MOD, p)
    case WordTest =>
      if |code| < 2 then None else ByEntry(code, if IsTest(code[1]) then COPY2_MOD_OPERAND else COPY2_MOD, p)
    case Opcode(e) => ByEntry(code, e, p)
    case _ => Some(Plan(0, Unknown))
  }

  /** Copy0F and Copy0F78, from behind the escape. */
  function DecodeSecond(code: seq<Byte>, p: Prefixes): Option<Plan> {
    if code == [] then None
    else
      match Second(code[0])
      case Opcode(e) => ByEntry(code, e, p)
      case Extract => ByEntry(code, if p.repne || p.operand then COPY4 else COPY2_MOD, p)
      case _ => Some(Plan(0, Unknown))
  }

  /** CopyVexCommon, from behind the prefix, whose last byte is `last`. */
  function DecodeVex(m: nat, last: Byte, code: seq<Byte>, p: Prefixes): Option<Plan> {
    var q := if last % 4 == 1 then p.(operand := true) else if last % 4 == 3 then p.(repne := true) else p;
    if m == 1 then DecodeSecond(code, q)
    else if m == 2 then ByEntry(code, COPY2_MOD, q)
    else if m == 3 then ByEntry(code, COPY2_MOD1, q)
    else if code == [] then None
    else Some(Plan(0, Unknown))
  }

  /** The ModR/M byte of a TEST, which alone of its group has an immediate. */
  predicate IsTest(m: Byte) {
    m / 8 % 8 == 0
  }

  /** A plan makes sense for the bytes that it was made from. */
  predicate IsPlan(plan: Plan, code: seq<Byte>) {
    plan.skip < |code| && IsCore(plan.core, code[plan.skip..])
  }

  predicate IsCore(core: Core, code: seq<Byte>) {
    match core
    case By(e, p) =>
      && IsEntry(e) && Readable(e, code) && HasKnownField(e, p, code)
      && 0 < Size(e, p, code) <= |code|
    case Near => 2 <= |code| && IsShortJump(code[..2])
    case Unknown => 0 < |code|
  }

  function CoreSize(core: Core, code: seq<Byte>): (n: nat)
    requires IsCore(core, code)
    ensures 0 < n <= |code|
  {
    match core
    case By(e, p) => Size(e, p, code)
    case Near => 2
    case Unknown => 1
  }

  /** The size of the instruction. */
  function PlanSize(plan: Plan, code: seq<Byte>): (n: nat)
    requires IsPlan(plan, code)
    ensures plan.skip < n <= |code|
  {
    plan.skip + CoreSize(plan.core, code[plan.skip..])
  }

  lemma EntryIsPlan(code: seq<Byte>, e: Entry, p: Prefixes)
    requires code != [] && IsEntry(e) && ByEntry(code, e, p).Some?
    ensures IsPlan(Plan(0, By(e, p)), code)
  {
    assert code[0..] == code;
    if IsMod(e) {
      ModFollowsFormat(e, p, code);
    } else if IsRelative(e) {
      RelativeFollowsFormat(e, p, code);
    }
  }

  lemma BehindIsPlan(n: nat, code: seq<Byte>, plan: Plan)
    requires n <= |code| && IsPlan(plan, code[n..])
    ensures IsPlan(Plan(n + plan.skip, plan.core), code)
    ensures PlanSize(Plan(n + plan.skip, plan.core), code) == n + PlanSize(plan, code[n..])
  {
    assert code[n..][plan.skip..] == code[n + plan.skip..];
  }

  lemma SecondIsPlan(code: seq<Byte>, p: Prefixes)
    requires DecodeSecond(code, p).Some?
    ensures IsPlan(DecodeSecond(code, p).value, code)
  {
    TableEntries(code[0]);
    match Second(code[0])
    case Opcode(e) => EntryIsPlan(code, e, p);
    case Extract => EntryIsPlan(code, if p.repne || p.operand then COPY4 else COPY2_MOD, p);
    case _ =>
  }

  lemma VexIsPlan(m: nat, last: Byte, code: seq<Byte>, p: Prefixes)
    requires DecodeVex(m, last, code, p).Some?
    ensures code != [] && IsPlan(DecodeVex(m, last, code, p).value, code)
  {
    var q := if last % 4 == 1 then p.(operand := true) else if last % 4 == 3 then p.(repne := true) else p;
    if m == 1 {
      SecondIsPlan(code, q);
    } else if m == 2 {
      EntryIsPlan(code, COPY2_MOD, q);
    } else if m == 3 {
      EntryIsPlan(code, COPY2_MOD1, q);
    }
  }

  /** Whatever is decoded, the plan makes sense: every field is of a size that AdjustTarget knows, and the copy reads
      no byte but those of the instruction. */
  lemma {:induction false} DecodeIsPlan(code: seq<Byte>, p: Prefixes)
    requires Decode(code, p).Some?
    ensures IsPlan(Decode(code, p).value, code)
    decreases |code|
  {
    var kind := First(code[0]);
    if kind == Prefix {
      DecodeIsPlan(code[1..], Seen(p, code[0]));
      BehindIsPlan(1, code, Decode(code[1..], Seen(p, code[0])).value);
    } else {
      TableEntries(code[0]);
      KindIsPlan(kind, code, p);
    }
  }

  lemma KindIsPlan(kind: Kind, code: seq<Byte>, p: Prefixes)
    requires code != [] && kind != Prefix && DecodeKind(kind, code, p).Some?
    requires kind.Opcode? ==> IsEntry(kind.e)
    requires kind == ShortJump ==> code[0] == 0xeb || 0x70 <= code[0] <= 0x7f
    ensures IsPlan(DecodeKind(kind, code, p).value, code)
  {
    if kind.Escape? || kind.Vex2? || kind.Vex3? {
      BodyIsPlan(kind, code, p);
    } else if kind.ByteTest? {
      EntryIsPlan(code, if IsTest(code[1]) then COPY2_MOD1 else COPY2_MOD, p);
    } else if kind.WordTest? {
      EntryIsPlan(code, if IsTest(code[1]) then COPY2_MOD_OPERAND else COPY2_MOD, p);
    } else if kind.Opcode? {
      EntryIsPlan(code, kind.e, p);
    }
  }

  lemma BodyIsPlan(kind: Kind, code: seq<Byte>, p: Prefixes)
    requires code != [] && (kind == Escape || kind == Vex2 || kind == Vex3) && DecodeKind(kind, code, p).Some?
    ensures IsPlan(DecodeKind(kind, code, p).value, code)
  {
    if kind == Escape {
      SecondIsPlan(code[1..], p);
      BehindIsPlan(1, code, DecodeSecond(code[1..], p).value);
    } else if kind == Vex2 {
      VexBodyIsPlan(2, 1, code[1], code, p);
    } else {
      VexBodyIsPlan(3, code[1] % 0x20, code[2], code, p.(wide := p.wide || code[2] >= 0x80));
    }
  }

  lemma VexBodyIsPlan(k: nat, m: nat, last: Byte, code: seq<Byte>, p: Prefixes)
    requires k < |code| && DecodeVex(m, last, code[k..], p).Some?
    ensures IsPlan(Behind(k, DecodeVex(m, last, code[k..], p)).value, code)
  {
    VexIsPlan(m, last, code[k..], p);
    BehindIsPlan(k, code, DecodeVex(m, last, code[k..], p).value);
  }

  // ---- Only the bytes of an instruction count ----

  /** Code that goes on differently behind the instruction is decoded the same. */
  ghost predicate Takes(plan: Option<Plan>, code: seq<Byte>, n: nat) {
    plan.Some? && IsPlan(plan.value, code) && PlanSize(plan.value, code) <= n <= |code|
  }

  lemma EntryLocal(code: seq<Byte>, e: Entry, p: Prefixes, n: nat)
    requires IsEntry(e) && Takes(ByEntry(code, e, p), code, n)
    ensures ByEntry(code[..n], e, p) == ByEntry(code, e, p)
  {
    assert code[0..] == code;
    if IsMod(e) {
      ModFollowsFormat(e, p, code);
    }
  }

  lemma BehindLocal(k: nat, plan: Option<Plan>, code: seq<Byte>, n: nat)
    requires k < |code| && plan.Some? && IsPlan(plan.value, code[k..]) && Takes(Behind(k, plan), code, n)
    ensures k <= n && Takes(plan, code[k..], n - k) && code[..n][k..] == code[k..][..n - k]
  {
    BehindIsPlan(k, code, plan.value);
  }

  lemma SecondLocal(code: seq<Byte>, p: Prefixes, n: nat)
    requires Takes(DecodeSecond(code, p), code, n)
    ensures DecodeSecond(code[..n], p) == DecodeSecond(code, p)
  {
    TableEntries(code[0]);
    assert code[..n][0] == code[0];
    var kind := Second(code[0]);
    if kind.Opcode? {
      EntryLocal(code, kind.e, p, n);
    } else if kind == Extract {
      EntryLocal(code, if p.repne || p.operand then COPY4 else COPY2_MOD, p, n);
    }
  }

  lemma VexLocal(m: nat, last: Byte, code: seq<Byte>, p: Prefixes, n: nat)
    requires Takes(DecodeVex(m, last, code, p), code, n)
    ensures DecodeVex(m, last, code[..n], p) == DecodeVex(m, last, code, p)
  {
    var q := if last % 4 == 1 then p.(operand := true) else if last % 4 == 3 then p.(repne := true) else p;
    if m == 1 {
      SecondLocal(code, q, n);
    } else if m == 2 {
      EntryLocal(code, COPY2_MOD, q, n);
    } else if m == 3 {
      EntryLocal(code, COPY2_MOD1, q, n);
    }
  }

  lemma DecodePrefix(code: seq<Byte>, rest: seq<Byte>, b: Byte, p: Prefixes)
    requires code != [] && b == code[0] && rest == code[1..] && First(b) == Prefix
    ensures Decode(code, p) == Behind(1, Decode(rest, Seen(p, b)))
  {
  }

  lemma PrefixLocal(code: seq<Byte>, rest: seq<Byte>, b: Byte, p: Prefixes, n: nat)
    requires code != [] && b == code[0] && rest == code[1..] && First(b) == Prefix && 0 < n <= |code|
    requires Decode(rest[..n - 1], Seen(p, b)) == Decode(rest, Seen(p, b))
    ensures Decode(code[..n], p) == Decode(code, p)
  {
    DecodePrefix(code, rest, b, p);
    DecodePrefix(code[..n], rest[..n - 1], b, p);
  }

  lemma {:induction false} DecodeLocal(code: seq<Byte>, p: Prefixes, n: nat)
    requires Takes(Decode(code, p), code, n)
    ensures Decode(code[..n], p) == Decode(code, p)
    decreases |code|
  {
    var kind := First(code[0]);
    assert code[..n][0] == code[0];
    if kind == Prefix {
      var q := Seen(p, code[0]);
      DecodeIsPlan(code[1..], q);
      BehindLocal(1, Decode(code[1..], q), code, n);
      DecodeLocal(code[1..], q, n - 1);
      PrefixLocal(code, code[1..], code[0], p, n);
    } else {
      TableEntries(code[0]);
      KindLocal(kind, code, p, n);
    }
  }

  lemma KindLocal(kind: Kind, code: seq<Byte>, p: Prefixes, n: nat)
    requires code != [] && kind != Prefix && Takes(DecodeKind(kind, code, p), code, n)
    requires kind.Opcode? ==> IsEntry(kind.e)
    ensures code[..n] != [] && DecodeKind(kind, code[..n], p) == DecodeKind(kind, code, p)
  {
    if kind.Escape? || kind.Vex2? || kind.Vex3? {
      BodyLocal(kind, code, p, n);
    } else if kind.Opcode? {
      EntryLocal(code, kind.e, p, n);
    } else if kind.ByteTest? || kind.WordTest? {
      TestLocal(kind, code, p, n);
    }
  }

  lemma TestLocal(kind: Kind, code: seq<Byte>, p: Prefixes, n: nat)
    requires code != [] && (kind == ByteTest || kind == WordTest) && Takes(DecodeKind(kind, code, p), code, n)
    ensures code[..n] != [] && DecodeKind(kind, code[..n], p) == DecodeKind(kind, code, p)
  {
    var more := if kind == ByteTest then COPY2_MOD1 else COPY2_MOD_OPERAND;
    var e := if IsTest(code[1]) then more else COPY2_MOD;
    EntryLocal(code, e, p, n);
    assert code[0..] == code;
    ModFollowsFormat(e, p, code);
    assert code[..n][1] == code[1];
  }

  lemma EscapeLocal(code: seq<Byte>, p: Prefixes, n: nat)
    requires code != [] && Takes(DecodeKind(Escape, code, p), code, n)
    ensures code[..n] != [] && DecodeKind(Escape, code[..n], p) == DecodeKind(Escape, code, p)
  {
    SecondIsPlan(code[1..], p);
    BehindLocal(1, DecodeSecond(code[1..], p), code, n);
    SecondLocal(code[1..], p, n - 1);
  }

  lemma BodyLocal(kind: Kind, code: seq<Byte>, p: Prefixes, n: nat)
    requires code != [] && (kind == Escape || kind == Vex2 || kind == Vex3)
    requires Takes(DecodeKind(kind, code, p), code, n)
    ensures code[..n] != [] && DecodeKind(kind, code[..n], p) == DecodeKind(kind, code, p)
  {
    if kind == Escape {
      EscapeLocal(code, p, n);
    } else if kind == Vex2 {
      VexBehind(2, 1, code[1], code, p, n);
    } else {
      VexBehind(3, code[1] % 0x20, code[2], code, p.(wide := p.wide || code[2] >= 0x80), n);
    }
  }

  lemma VexBehind(k: nat, m: nat, last: Byte, code: seq<Byte>, p: Prefixes, n: nat)
    requires k < |code| && DecodeVex(m, last, code[k..], p).Some?
    requires Takes(Behind(k, DecodeVex(m, last, code[k..], p)), code, n)
    ensures k < n <= |code| && DecodeVex(m, last, code[..n][k..], p) == DecodeVex(m, last, code[k..], p)
  {
    var rest := code[k..];
    VexIsPlan(m, last, rest, p);
    BehindLocal(k, DecodeVex(m, last, rest, p), code, n);
    VexLocal(m, last, rest, p, n - k);
  }
}
