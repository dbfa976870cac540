/** Patched code: which bytes a detour changes, and what putting patches in and taking them out leaves. */
module DetourPatch {
  import opened Prelude
  import opened Addresses
  import opened DetourJump
  import opened Trampolines

  /** Offsets inside a trampoline. */
  const PB_REMAIN := 72
  const PB_DETOUR := 80
  const RB_CODE_IN := 88

  /** The bytes of `s` at `at`. */
  function Overlay(mem: Memory, at: nat, s: seq<Byte>): (m: Memory)
    ensures forall a: Address :: m(a) == if at <= a < at + |s| then s[a - at] else mem(a)
  {
    (a: Address) => if at <= a < at + |s| then s[a - at] else mem(a)
  }

  function BytesAt(mem: Memory, at: nat, n: nat): (s: seq<Byte>)
    requires at + n <= TWO64
    ensures |s| == n && forall k | 0 <= k < n :: s[k] == mem(at + k)
  {
    if n == 0 then [] else BytesAt(mem, at, n - 1) + [mem(at + n - 1)]
  }

  datatype Change = Change(target: Address, restore: seq<Byte>, jump: seq<Byte>, sources: seq<seq<Byte>>,
                           moved: seq<Byte>, detour: Address)

  /** What a detour does to its target: the bytes that were there, as many that come there, the instructions among those
      that were there, their copies, and where it leads. */
  type Patch = p: Change | |p.jump| == |p.restore| witness Change(0, [], [], [], [], 0)

  predicate Covers(p: Patch, a: int) {
    p.target <= a < p.target + |p.restore|
  }

  predicate AreApart(p: Patch, q: Patch) {
    p.target + |p.restore| <= q.target || q.target + |q.restore| <= p.target
  }

  /** The patches of all trampolines that are handed out. */
  type Patches = map<Address, Patch>

  /** Patches come and go, but do not change. */
  predicate Unchanged(was: Patches, now: Patches) {
    forall t | t in was && t in now :: now[t] == was[t]
  }

  ghost predicate AllApart(ps: Patches) {
    forall t, u {:trigger AreApart(ps[t], ps[u])} | t in ps && u in ps && t != u :: AreApart(ps[t], ps[u])
  }

  /** What a patch restores is the original code. */
  ghost predicate Restores(p: Patch, original: Memory) {
    forall a: Address | Covers(p, a) :: p.restore[a - p.target] == original(a)
  }

  ghost predicate AllRestore(ps: Patches, original: Memory) {
    forall t {:trigger Restores(ps[t], original)} | t in ps :: Restores(ps[t], original)
  }

  ghost predicate Patched(ps: Patches, attached: set<Address>, a: Address)
    requires attached <= ps.Keys
  {
    exists t | t in attached :: Covers(ps[t], a)
  }

  /** A byte is that of the jump of an attached detour, or the original one. */
  ghost predicate ByteRight(b: Byte, a: Address, original: Memory, ps: Patches, attached: set<Address>)
    requires attached <= ps.Keys
  {
    && (forall t | t in attached && Covers(ps[t], a) :: b == ps[t].jump[a - ps[t].target])
    && (!Patched(ps, attached, a) ==> b == original(a))
  }

  /** The code is the original one but for the jumps of the attached detours. */
  ghost predicate Imaged(code: Memory, original: Memory, ps: Patches, attached: set<Address>) {
    attached <= ps.Keys && forall a: Address {:trigger code(a)} :: ByteRight(code(a), a, original, ps, attached)
  }

  /** The patches make sense, and the code is the image of those attached. */
  ghost predicate IsImage(code: Memory, original: Memory, ps: Patches, attached: set<Address>) {
    Imaged(code, original, ps, attached) && AllApart(ps) && AllRestore(ps, original)
  }

  lemma InsertImaged(code: Memory, original: Memory, ps: Patches, attached: set<Address>, t: Address)
    requires IsImage(code, original, ps, attached) && t in ps && t !in attached
    ensures IsImage(Overlay(code, ps[t].target, ps[t].jump), original, ps, attached + {t})
  {
    var now, more := Overlay(code, ps[t].target, ps[t].jump), attached + {t};
    forall a: Address
      ensures ByteRight(now(a), a, original, ps, more)
    {
      assert ByteRight(code(a), a, original, ps, attached);
      if Covers(ps[t], a) {
        OnlyOne(ps, t, a);
      } else {
        assert Patched(ps, attached, a) ==> Patched(ps, more, a);
      }
    }
  }

  lemma OnlyOne(ps: Patches, t: Address, a: Address)
    requires AllApart(ps) && t in ps && Covers(ps[t], a)
    ensures forall u | u in ps && u != t :: !Covers(ps[u], a)
  {
    forall u | u in ps && u != t
      ensures !Covers(ps[u], a)
    {
      assert AreApart(ps[u], ps[t]);
    }
  }

  lemma RemoveImaged(code: Memory, original: Memory, ps: Patches, attached: set<Address>, t: Address)
    requires IsImage(code, original, ps, attached) && t in attached
    ensures IsImage(Overlay(code, ps[t].target, ps[t].restore), original, ps, attached - {t})
  {
    var now, less := Overlay(code, ps[t].target, ps[t].restore), attached - {t};
    forall a: Address
      ensures ByteRight(now(a), a, original, ps, less)
    {
      assert ByteRight(code(a), a, original, ps, attached);
      if Covers(ps[t], a) {
        OnlyOne(ps, t, a);
        assert Restores(ps[t], original);
      } else if Patched(ps, attached, a) {
        var u :| u in attached && Covers(ps[u], a);
        assert u in less;
      }
    }
  }

  /** With nothing attached, all bytes are what they were. */
  lemma NothingAttached(code: Memory, original: Memory, ps: Patches, a: Address)
    requires Imaged(code, original, ps, {})
    ensures code(a) == original(a)
  {
    assert ByteRight(code(a), a, original, ps, {});
  }

  /** One more patch, of code that no other touches. */
  lemma AddPatch(code: Memory, original: Memory, ps: Patches, attached: set<Address>, t: Address, p: Patch)
    requires IsImage(code, original, ps, attached) && t !in ps
    requires forall u | u in ps :: AreApart(ps[u], p) && AreApart(p, ps[u])
    requires Restores(p, code)
    ensures IsImage(code, original, ps[t := p], attached)
  {
    var qs := ps[t := p];
    forall a: Address
      ensures ByteRight(code(a), a, original, qs, attached)
      ensures Covers(p, a) ==> code(a) == original(a)
    {
      assert ByteRight(code(a), a, original, ps, attached);
      assert Patched(qs, attached, a) <==> Patched(ps, attached, a);
      if Covers(p, a) {
        forall u | u in attached
          ensures !Covers(ps[u], a)
        {
          assert AreApart(ps[u], p);
        }
      }
    }
    assert Restores(p, original);
  }

  /** One patch less, of a detour that is not attached. */
  lemma DropPatch(code: Memory, original: Memory, ps: Patches, attached: set<Address>, t: Address)
    requires IsImage(code, original, ps, attached) && t !in attached
    ensures IsImage(code, original, ps - {t}, attached)
  {
    var qs := ps - {t};
    forall a: Address
      ensures ByteRight(code(a), a, original, qs, attached)
    {
      assert ByteRight(code(a), a, original, ps, attached);
      assert Patched(qs, attached, a) <==> Patched(ps, attached, a);
    }
  }

  // ---- Jumps into trampolines ----

  /** The jump over `size` bytes of code at `target` into trampoline `t`, and breaks behind it. */
  function JumpBytes(target: Address, t: Address, size: nat): (s: seq<Byte>)
    requires t + RB_CODE_IN < TWO64 && SIZE_OF_JMP <= size
    ensures |s| == size
  {
    JmpImmediate(target, t + RB_CODE_IN) + seq(size - SIZE_OF_JMP, _ => 0xcc)
  }

  /** A patch that leads to the trampoline `t`, which is in reach. */
  ghost predicate LeadsTo(p: Patch, t: Address) {
    && t + TRAMPOLINE_SIZE < TWO64
    && SIZE_OF_JMP <= |p.restore| && p.target + |p.restore| < TWO64
    && Fits32(t + RB_CODE_IN - (p.target + SIZE_OF_JMP))
    && p.jump == JumpBytes(p.target, t, |p.restore|)
  }

  /** The code of an attached detour begins with a jump to the entry of its trampoline. */
  lemma AttachedJumps(code: Memory, original: Memory, ps: Patches, attached: set<Address>, t: Address)
    requires Imaged(code, original, ps, attached) && t in attached && LeadsTo(ps[t], t)
    ensures code(ps[t].target) == 0xe9
    ensures ImmediateTarget(ps[t].target, BytesAt(code, ps[t].target, SIZE_OF_JMP)) == t + RB_CODE_IN
  {
    var p := ps[t];
    var jmp := JmpImmediate(p.target, t + RB_CODE_IN);
    forall k | 0 <= k < SIZE_OF_JMP
      ensures BytesAt(code, p.target, SIZE_OF_JMP)[k] == jmp[k]
    {
      assert ByteRight(code(p.target + k), p.target + k, original, ps, attached);
      assert Covers(p, p.target + k) && p.jump[k] == jmp[k];
    }
    assert BytesAt(code, p.target, SIZE_OF_JMP) == jmp;
    ImmediateJumps(p.target, t + RB_CODE_IN);
    assert code(p.target + 0) == jmp[0];
  }
}
