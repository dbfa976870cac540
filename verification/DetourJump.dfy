/** Jumps of the x64 detours: how they are written and read, and how far apart code and trampolines may be. */
module DetourJump {
  import opened Prelude
  import opened Addresses

  /** Executable memory outside the trampolines. */
  type Memory = Address -> Byte

  // ---- 32-bit displacements ----

  predicate Fits32(d: int) {
    -0x8000_0000 <= d < 0x8000_0000
  }

  /** The four bytes of (INT32)d. */
  function Le32(d: int): (s: seq<Byte>)
    ensures |s| == 4
  {
    var u := d % TWO32;
    [u % 0x100, u / 0x100 % 0x100, u / 0x1_0000 % 0x100, u / 0x100_0000]
  }

  function Signed32(u: int): int {
    if u < 0x8000_0000 then u else u - TWO32
  }

  /** Four bytes as a signed number. */
  function S32(s: seq<Byte>): int
    requires |s| == 4
  {
    Signed32(U32(s, 0))
  }

  /** A displacement comes back exactly if it fits. */
  lemma DisplacementComesBack(d: int)
    ensures S32(Le32(d)) == d <==> Fits32(d)
  {
    var u := d % TWO32;
    BytesOf(u);
    if Fits32(d) {
      assert u == if d < 0 then d + TWO32 else d;
    }
  }

  lemma BytesOf(u: nat)
    requires u < TWO32
    ensures u % 0x100 + 0x100 * (u / 0x100 % 0x100) + 0x1_0000 * (u / 0x1_0000 % 0x100) +
            0x100_0000 * (u / 0x100_0000) == u
  {
    assert u / 0x1_0000 == u / 0x100 / 0x100;
    assert u / 0x100_0000 == u / 0x1_0000 / 0x100;
  }

  // ---- Jumps ----

  const SIZE_OF_JMP := 5

  /** detour_gen_jmp_immediate: jmp to `to`, placed at `at`. */
  function JmpImmediate(at: Address, to: Address): (s: seq<Byte>)
    ensures |s| == SIZE_OF_JMP
  {
    [0xe9] + Le32(to - (at + 5))
  }

  /** detour_gen_jmp_indirect: jmp through the pointer at `ptr`, placed at `at`. */
  function JmpIndirect(at: Address, ptr: Address): (s: seq<Byte>)
    ensures |s| == 6
  {
    [0xff, 0x25] + Le32(ptr - (at + 6))
  }

  /** Where an immediate jump at `at` goes. */
  function ImmediateTarget(at: Address, s: seq<Byte>): Address
    requires |s| == SIZE_OF_JMP
  {
    Wrap(at + 5 + S32(s[1..]))
  }

  /** The pointer that an indirect jump at `at` goes through. */
  function IndirectPointer(at: Address, s: seq<Byte>): Address
    requires |s| == 6
  {
    Wrap(at + 6 + S32(s[2..]))
  }

  lemma ImmediateJumps(at: Address, to: Address)
    requires Fits32(to - (at + 5))
    ensures ImmediateTarget(at, JmpImmediate(at, to)) == to
  {
    assert JmpImmediate(at, to)[1..] == Le32(to - (at + 5));
    DisplacementComesBack(to - (at + 5));
  }

  lemma IndirectJumps(at: Address, ptr: Address)
    requires Fits32(ptr - (at + 6))
    ensures IndirectPointer(at, JmpIndirect(at, ptr)) == ptr
  {
    assert JmpIndirect(at, ptr)[2..] == Le32(ptr - (at + 6));
    DisplacementComesBack(ptr - (at + 6));
  }

  // ---- Bounds for trampolines ----

  const REACH := 0x7ff8_0000

  /** detour_2gb_below. */
  function Below(a: Address): Address {
    if a > REACH then a - REACH else 0x8_0000
  }

  /** detour_2gb_above. */
  function Above(a: Address): Address {
    if a < 0xffff_ffff_8000_0000 then a + REACH else 0xffff_ffff_fff8_0000
  }

  function Displacement(mem: Memory, at: Address): int {
    S32([mem(at), mem(Wrap(at + 1)), mem(Wrap(at + 2)), mem(Wrap(at + 3))])
  }

  /** What the code at `at` jumps to or through, if it begins with a jump that has a 32-bit displacement. */
  function JumpsTo(mem: Memory, at: Address): Option<Address> {
    if mem(at) == 0xff && mem(Wrap(at + 1)) == 0x25 then Some(Wrap(at + 6 + Displacement(mem, Wrap(at + 2))))
    else if mem(at) == 0xe9 then Some(Wrap(at + 5 + Displacement(mem, Wrap(at + 1))))
    else None
  }

  function NextBytes(mem: Memory, at: Address, n: nat): (s: seq<Byte>)
    ensures |s| == n
  {
    seq<Byte>(n, i requires 0 <= i < n => mem(Wrap(at + i)))
  }

  lemma DisplacementIs(mem: Memory, at: Address, k: nat)
    ensures Displacement(mem, Wrap(at + k)) ==
            S32([mem(Wrap(at + k)), mem(Wrap(at + (k + 1))), mem(Wrap(at + (k + 2))), mem(Wrap(at + (k + 3)))])
  {
    WrapTwice(at, k, 1);
    WrapTwice(at, k, 2);
    WrapTwice(at, k, 3);
  }

  lemma Slices(s: seq<Byte>)
    requires |s| == 6
    ensures s[..5][1..] == [s[1], s[2], s[3], s[4]] && s[2..] == [s[2], s[3], s[4], s[5]]
  {
  }

  /** The target of a jump, decoded, and the pointer that one goes through. */
  lemma TargetsAre(mem: Memory, at: Address, s: seq<Byte>)
    requires s == NextBytes(mem, at, 6)
    ensures ImmediateTarget(at, s[..5]) == Wrap(at + 5 + Displacement(mem, Wrap(at + 1)))
    ensures IndirectPointer(at, s) == Wrap(at + 6 + Displacement(mem, Wrap(at + 2)))
  {
    Slices(s);
    DisplacementIs(mem, at, 1);
    DisplacementIs(mem, at, 2);
  }

  lemma FirstTwo(mem: Memory, at: Address, s: seq<Byte>)
    requires s == NextBytes(mem, at, 6)
    ensures s[0] == mem(at) && s[1] == mem(Wrap(at + 1))
  {
    assert Wrap(at + 0) == at;
  }

  lemma JumpsBy(mem: Memory, at: Address, b: Byte, c: Byte, far: Address, through: Address)
    requires b == mem(at) && c == mem(Wrap(at + 1))
    requires far == Wrap(at + 5 + Displacement(mem, Wrap(at + 1)))
    requires through == Wrap(at + 6 + Displacement(mem, Wrap(at + 2)))
    ensures JumpsTo(mem, at) ==
            if b == 0xe9 then Some(far) else if b == 0xff && c == 0x25 then Some(through) else None
  {
  }

  /** That is where the jump goes, decoded, or the pointer that it goes through. */
  lemma JumpsToIs(mem: Memory, at: Address, s: seq<Byte>)
    requires s == NextBytes(mem, at, 6)
    ensures JumpsTo(mem, at) ==
            if s[0] == 0xe9 then Some(ImmediateTarget(at, s[..5]))
            else if s[0] == 0xff && s[1] == 0x25 then Some(IndirectPointer(at, s)) else None
  {
    TargetsAre(mem, at, s);
    FirstTwo(mem, at, s);
    JumpsBy(mem, at, s[0], s[1], ImmediateTarget(at, s[..5]), IndirectPointer(at, s));
  }

  /** detour_find_jmp_bounds. */
  function Bounds(mem: Memory, at: Address): (Address, Address) {
    match JumpsTo(mem, at)
    case None => (Below(at), Above(at))
    case Some(to) => if to < at then (Below(at), Above(to)) else (Below(to), Above(at))
  }

  predicate IsNear(t: Address, a: Address) {
    -0x7ff8_0000 <= t - a <= 0x7ff8_0000
  }

  lemma ReachOf(a: Address, t: Address)
    ensures Below(a) <= t ==> a - t <= REACH
    ensures t <= Above(a) ==> t - a <= REACH
  {
  }

  /** A trampoline within the bounds is in reach of the code, and of what that jumps to, from any place in
      the one to any place in the other. */
  lemma InReach(mem: Memory, at: Address, t: Address, i: nat, j: nat)
    requires Bounds(mem, at).0 <= t <= Bounds(mem, at).1 && i <= 0x8000 && j <= 0x8000
    ensures Fits32((t + i) - (at + j)) && Fits32((at + j) - (t + i))
    ensures var to := JumpsTo(mem, at);
            to.Some? ==> Fits32((t + i) - (to.value + j)) && Fits32((to.value + j) - (t + i))
  {
    ReachOf(at, t);
    if JumpsTo(mem, at).Some? {
      ReachOf(JumpsTo(mem, at).value, t);
    }
  }
}
