/** Transactions of detours: attach, detach, commit and abort (x64).
    A clause `P() == true` is proved as one fact, and not conjunct by conjunct, which keeps the proofs quick. */
module Detours {
  import opened Prelude
  import opened Addresses
  import opened DetourJump
  import opened Trampolines
  import opened Allocator
  import opened DetourPatch
  import opened X64Instruction
  import opened X64Moved
  import opened MovedCode
  import opened MovedSize
  import opened TargetCopy

  /** The Windows error codes that the calls return. */
  datatype Status = NoError | InvalidOperation | InvalidParameter | InvalidHandle | InvalidBlock | NotEnoughMemory |
                    AccessDenied

  /** DetourOperation. */
  datatype Operation = Operation(isRemove: bool, pointer: Address, target: Address, trampoline: Address)

  // ---- What the copies leave of the saved code ----

  /** Where rbRestore begins in a trampoline, behind rbCode and two single bytes. */
  const RB_RESTORE := 32

  /** The fields of a trampoline follow each other: rbCode and two bytes, rbRestore and two bytes, one byte for each
      entry of rAlign, two pointers, and rbCodeIn; and a region has as many as fit behind its own header. */
  lemma TrampolineLayout()
    ensures RB_RESTORE == CODE_SIZE + 2 && PB_REMAIN == RB_RESTORE + CODE_SIZE + 2 + ALIGN_ENTRIES
    ensures PB_DETOUR == PB_REMAIN + 8 && RB_CODE_IN == PB_DETOUR + 8 && TRAMPOLINE_SIZE == RB_CODE_IN + 8
    ensures REGION_SIZE == 0x1_0000 && PER_REGION == REGION_SIZE / TRAMPOLINE_SIZE - 1
  {
  }

  /** What is in rbRestore once a jump has been written behind `n` bytes of moved code. */
  function SavedCode(restore: seq<Byte>, n: nat, jump: seq<Byte>): (s: seq<Byte>)
    requires n <= CODE_SIZE && |jump| == SIZE_OF_INDIRECT && SIZE_OF_JMP <= |restore|
    ensures |s| == |restore|
  {
    if n + |jump| <= RB_RESTORE then restore
    else jump[RB_RESTORE - n..] + restore[n + |jump| - RB_RESTORE..]
  }

  /** The jump behind `n` bytes of moved code, through pbRemain; it does not depend on where the trampoline is. */
  function JumpBack(n: nat): (s: seq<Byte>)
    ensures |s| == SIZE_OF_INDIRECT
  {
    [0xff, 0x25] + Le32(PB_REMAIN - n - SIZE_OF_INDIRECT)
  }

  lemma JumpsBack(t: Address, n: nat)
    requires t + TRAMPOLINE_SIZE < TWO64 && n <= CODE_SIZE
    ensures JmpIndirect(t + n, t + PB_REMAIN) == JumpBack(n)
  {
    assert (t + PB_REMAIN) - (t + n + 6) == PB_REMAIN - n - SIZE_OF_INDIRECT;
  }

  /** The jump behind `n` bytes of moved code ends before the saved code, or happens to agree with it. */
  predicate SparesCode(restore: seq<Byte>, n: nat) {
    n <= CODE_SIZE && SIZE_OF_JMP <= |restore| &&
    (n + SIZE_OF_INDIRECT <= RB_RESTORE ||
     restore[..n + SIZE_OF_INDIRECT - RB_RESTORE] == JumpBack(n)[RB_RESTORE - n..])
  }

  /** The saved code is whole exactly then. */
  lemma SavedWhole(restore: seq<Byte>, n: nat)
    requires n <= CODE_SIZE && SIZE_OF_JMP <= |restore|
    ensures SavedCode(restore, n, JumpBack(n)) == restore <==> SparesCode(restore, n)
  {
    if n + SIZE_OF_INDIRECT > RB_RESTORE {
      var over := n + SIZE_OF_INDIRECT - RB_RESTORE;
      var s := SavedCode(restore, n, JumpBack(n));
      assert s[..over] == JumpBack(n)[RB_RESTORE - n..];
      assert restore == restore[..over] + restore[over..];
    }
  }

  /** A jump put over code and the saved code put back over the jump leave all code as it was, exactly then. */
  lemma PatchAndRestore(code: Memory, target: Address, jump: seq<Byte>, n: nat)
    requires n <= CODE_SIZE && SIZE_OF_JMP <= |jump| && target + |jump| < TWO64
    ensures var restore := BytesAt(code, target, |jump|);
            (forall a: Address ::
               Overlay(Overlay(code, target, jump), target, SavedCode(restore, n, JumpBack(n)))(a) == code(a))
            <==> SparesCode(restore, n)
  {
    var restore := BytesAt(code, target, |jump|);
    var s := SavedCode(restore, n, JumpBack(n));
    var now := Overlay(Overlay(code, target, jump), target, s);
    SavedWhole(restore, n);
    if forall a: Address :: now(a) == code(a) {
      forall k | 0 <= k < |s|
        ensures s[k] == restore[k]
      {
        assert now(target + k) == code(target + k);
      }
      assert s == restore;
    }
  }

  /** What is moved of a target. */
  function Instructions(mem: Memory, target: Address): seq<seq<Byte>> {
    All(Code(TextAt(mem, target)))
  }

  /** How much is replaced. */
  function ReplacedSize(mem: Memory, target: Address): nat {
    TargetSize(Code(TextAt(mem, target)))
  }

  /** There is room for the copies of the code to move, and they and the jump behind them spare the saved code. */
  ghost predicate CopyFits(mem: Memory, target: Address, t: Address)
    requires target + ReplacedSize(mem, target) < TWO64
  {
    var code, cb := TextAt(mem, target), ReplacedSize(mem, target);
    CanCopy(code, target, t) &&
    (SIZE_OF_JMP <= cb ==> SparesCode(BytesAt(mem, target, cb), |Moved(BlockOf(code, target, t))|))
  }

  /** If no copy has more than 12 bytes, and none is of a jump that is too far from its target and cannot grow, they
      always do. */
  lemma MovedFits(mem: Memory, target: Address, t: Address)
    requires target + ReplacedSize(mem, target) < TWO64
    requires var b := BlockOf(TextAt(mem, target), target, t);
             && AreCode(Code(TextAt(mem, target)), b.sources) && IsBlock(b) && NoneDrops(b)
             && forall k | 0 <= k < |b.sources| :: Grown(b.sources[k]) <= 12
    ensures CopyFits(mem, target, t)
  {
    ShortFits(Code(TextAt(mem, target)), BlockOf(TextAt(mem, target), target, t));
  }

  /** The copies of two conditional jumps and an instruction of 15 bytes are 27 bytes long, and the jump behind them
      overwrites the first byte of the saved code: putting the saved code back does not restore it. */
  lemma MovedTooLong(mem: Memory, target: Address, t: Address)
    requires IsTooLong(TextAt(mem, target)) && target + 19 < TWO64
    ensures ReplacedSize(mem, target) == 19
    ensures CanCopy(TextAt(mem, target), target, t) && |Moved(BlockOf(TextAt(mem, target), target, t))| == 27
    ensures !SparesCode(BytesAt(mem, target, 19), 27) && !CopyFits(mem, target, t)
  {
    TooLong(TextAt(mem, target), BlockOf(TextAt(mem, target), target, t));
    FirstByte(mem, target, 19);
    OverwritesFirst(BytesAt(mem, target, 19));
  }

  lemma FirstByte(mem: Memory, target: Address, n: nat)
    requires IsTooLong(TextAt(mem, target)) && target + n < TWO64 && 0 < n
    ensures BytesAt(mem, target, n)[0] != 0
  {
    assert mem(Wrap(target + 0)) == Read(TextAt(mem, target), 0, MAX_SIZE)[0];
    assert BytesAt(mem, target, n)[0] == mem(target + 0);
  }

  lemma OverwritesFirst(restore: seq<Byte>)
    requires SIZE_OF_JMP <= |restore| && restore[0] != 0
    ensures !SparesCode(restore, 27)
  {
    assert JumpBack(27)[5] == 0;
    assert restore[..1][0] == restore[0] && JumpBack(27)[5..][0] == 0;
  }

  // ---- What trampolines and operations say ----

  /** The fields of a trampoline are those of its patch, and it goes on outside its region. */
  ghost predicate Describes(v: Trampoline, t: Address, p: Patch) {
    && LeadsTo(p, t)
    && v.pbRemain == p.target + |p.restore|
    && v.cbRestore == |p.restore| <= CODE_SIZE - SIZE_OF_JMP && v.rbRestore == p.restore && v.pbDetour == p.detour
    && !Inside(RegionOf(t), v.pbRemain)
    && GoesOn(v, t, p)
  }

  /** The moved code, and a jump behind it to what follows the code replaced. */
  ghost predicate GoesOn(v: Trampoline, t: Address, p: Patch) {
    t + TRAMPOLINE_SIZE < TWO64 && |p.moved| <= CODE_SIZE &&
    v.rbCode == p.moved + JmpIndirect(t + |p.moved|, t + PB_REMAIN)
  }

  /** So it says what jump comes to the target. */
  lemma DescribedJump(v: Trampoline, t: Address, p: Patch)
    requires Describes(v, t, p)
    ensures t + RB_CODE_IN < TWO64 && p.target < TWO64 && SIZE_OF_JMP <= v.cbRestore
    ensures JumpBytes(p.target, t, v.cbRestore) == p.jump
  {
  }

  /** The moved code consists of the copies of whole instructions, which were at the target; what else is replaced
      there is padding. */
  ghost predicate IsMovedCode(p: Patch, t: Address) {
    var b := Block(X64(), p.sources, p.target, t);
    IsBlock(b) && IsContained(b) && p.moved == Moved(b) && IsReplaced(p.sources, p.restore)
  }

  /** What is replaced is some instructions, and padding. */
  ghost predicate IsReplaced(sources: seq<seq<Byte>>, restore: seq<Byte>) {
    Joined(sources) <= restore && IsPadding(restore[|Joined(sources)|..])
  }

  ghost predicate AllMoved(ps: Patches) {
    forall t {:trigger IsMovedCode(ps[t], t)} | t in ps :: IsMovedCode(ps[t], t)
  }

  /** Each trampoline says what its patch says, whose moved code is that of the target. */
  ghost predicate AllDescribed(slots: Slots, ps: Patches) {
    && AllMoved(ps)
    && forall t {:trigger Describes(slots(t), t, ps[t])} | t in ps :: Describes(slots(t), t, ps[t])
  }

  /** The entry of a trampoline jumps through its pointer to the detour. */
  ghost predicate Armed(v: Trampoline, t: Address) {
    t + TRAMPOLINE_SIZE < TWO64 && v.rbCodeIn == JmpIndirect(t + RB_CODE_IN, t + PB_DETOUR)
  }

  ghost predicate AllArmed(slots: Slots, attached: set<Address>) {
    forall t {:trigger Armed(slots(t), t)} | t in attached :: Armed(slots(t), t)
  }

  /** Arming a trampoline changes nothing else. */
  lemma ArmOne(slots: Slots, now: Slots, ps: Patches, attached: set<Address>, t: Address)
    requires AllDescribed(slots, ps) && AllArmed(slots, attached) && t in ps
    requires t + TRAMPOLINE_SIZE < TWO64
    requires now(t) == slots(t).(rbCodeIn := JmpIndirect(t + RB_CODE_IN, t + PB_DETOUR))
    requires forall a | a != t :: now(a) == slots(a)
    ensures AllDescribed(now, ps) && AllArmed(now, attached + {t})
  {
    forall u | u in ps
      ensures Describes(now(u), u, ps[u])
    {
      assert Describes(slots(u), u, ps[u]);
    }
    forall u | u in attached + {t}
      ensures Armed(now(u), u)
    {
      assert u in attached ==> Armed(slots(u), u);
    }
  }

  /** Putting an armed detour in place. */
  lemma PlaceKeeps(code: Memory, original: Memory, ps: Patches, attached: set<Address>, slots: Slots, t: Address)
    requires IsImage(code, original, ps, attached) && AllDescribed(slots, ps) && AllArmed(slots, attached)
    requires t in ps && t !in attached && Armed(slots(t), t)
    ensures t + RB_CODE_IN < TWO64 && SIZE_OF_JMP <= slots(t).cbRestore
    ensures JumpBytes(ps[t].target, t, slots(t).cbRestore) == ps[t].jump
    ensures IsImage(Overlay(code, ps[t].target, ps[t].jump), original, ps, attached + {t})
    ensures AllArmed(slots, attached + {t})
  {
    assert Describes(slots(t), t, ps[t]);
    DescribedJump(slots(t), t, ps[t]);
    InsertImaged(code, original, ps, attached, t);
  }

  lemma LessMoved(ps: Patches, t: Address)
    requires AllMoved(ps)
    ensures AllMoved(ps - {t})
  {
    var qs := ps - {t};
    forall u | u in qs
      ensures IsMovedCode(qs[u], u)
    {
      assert IsMovedCode(ps[u], u);
    }
  }

  /** Freeing a trampoline does not touch the others. */
  lemma ForgetOne(slots: Slots, now: Slots, ps: Patches, attached: set<Address>, t: Address)
    requires AllDescribed(slots, ps) && AllArmed(slots, attached) && t !in attached
    requires forall a | a != t :: now(a) == slots(a)
    ensures AllDescribed(now, ps - {t}) && AllArmed(now, attached)
  {
    LessMoved(ps, t);
    forall u | u in ps - {t}
      ensures Describes(now(u), u, ps[u])
    {
      assert Describes(slots(u), u, ps[u]);
    }
    forall u | u in attached
      ensures Armed(now(u), u)
    {
      assert Armed(slots(u), u);
    }
  }

  /** An operation is on a trampoline that is handed out, and removes exactly an attached detour. */
  ghost predicate Fits(o: Operation, ps: Patches, attached: set<Address>) {
    o.trampoline in ps && o.target == ps[o.trampoline].target && (o.isRemove <==> o.trampoline in attached)
  }

  ghost predicate AllFit(ops: seq<Operation>, ps: Patches, attached: set<Address>) {
    && (forall i | 0 <= i < |ops| :: Fits(ops[i], ps, attached))
    && (forall i, j | 0 <= i < j < |ops| :: ops[i].trampoline != ops[j].trampoline)
  }

  function Inserts(ops: seq<Operation>): set<Address> {
    set o | o in ops && !o.isRemove :: o.trampoline
  }

  function Removes(ops: seq<Operation>): set<Address> {
    set o | o in ops && o.isRemove :: o.trampoline
  }

  /** The detours in place after some operations. */
  function After(attached: set<Address>, ops: seq<Operation>): set<Address> {
    if ops == [] then attached
    else
      var o, before := ops[|ops| - 1], After(attached, ops[..|ops| - 1]);
      One(before, o)
  }

  /** The detours in place after one operation. */
  function One(attached: set<Address>, o: Operation): set<Address> {
    if o.isRemove then attached - {o.trampoline} else attached + {o.trampoline}
  }

  lemma KindsSnoc(init: seq<Operation>, o: Operation)
    ensures Inserts(init + [o]) == Inserts(init) + if o.isRemove then {} else {o.trampoline}
    ensures Removes(init + [o]) == Removes(init) + if o.isRemove then {o.trampoline} else {}
  {
  }

  lemma OthersElsewhere(ops: seq<Operation>, ps: Patches, attached: set<Address>, k: nat)
    requires AllFit(ops, ps, attached) && k < |ops|
    ensures ops[k].trampoline !in Inserts(ops[..k]) && ops[k].trampoline !in Removes(ops[..k])
    ensures AllFit(ops[..k], ps, attached)
  {
  }

  /** Operations on different trampolines do not interfere. */
  lemma {:induction false} AfterIs(attached: set<Address>, ops: seq<Operation>, ps: Patches)
    requires AllFit(ops, ps, attached)
    ensures After(attached, ops) == (attached + Inserts(ops)) - Removes(ops)
    decreases |ops|
  {
    if ops != [] {
      var k := |ops| - 1;
      var init, o := ops[..k], ops[k];
      OthersElsewhere(ops, ps, attached, k);
      AfterIs(attached, init, ps);
      assert ops == init + [o];
      KindsSnoc(init, o);
      OneIs(attached, Inserts(init), Removes(init), o);
    }
  }

  lemma OneIs(attached: set<Address>, i: set<Address>, r: set<Address>, o: Operation)
    requires o.trampoline !in i && o.trampoline !in r
    ensures var t := o.trampoline;
            One((attached + i) - r, o) == if o.isRemove then (attached + i) - (r + {t}) else (attached + (i + {t})) - r
  {
  }

  /** The operation behind some others still fits after them. */
  lemma {:induction false} StillFits(attached: set<Address>, ops: seq<Operation>, ps: Patches, k: nat)
    requires AllFit(ops, ps, attached) && k < |ops|
    ensures Fits(ops[k], ps, After(attached, ops[..k]))
  {
    OthersElsewhere(ops, ps, attached, k);
    AfterIs(attached, ops[..k], ps);
  }

  /** What an operation writes to its target. */
  function BytesOf(o: Operation, ps: Patches): seq<Byte>
    requires o.trampoline in ps
  {
    if o.isRemove then ps[o.trampoline].restore else ps[o.trampoline].jump
  }

  ghost predicate AreIn(ops: seq<Operation>, ps: Patches) {
    forall o | o in ops :: o.trampoline in ps
  }

  /** Where an operation lets its pointer lead. */
  function Leads(o: Operation, ps: Patches): Address
    requires o.trampoline in ps
  {
    if o.isRemove then ps[o.trampoline].target else o.trampoline
  }

  /** No operation behind this one is on the same pointer. */
  predicate IsLast(ops: seq<Operation>, i: nat)
    requires i < |ops|
  {
    forall j | i < j < |ops| :: ops[j].pointer != ops[i].pointer
  }

  /** The callers' pointers: the last operation on one decides, a detour put in that it leads to the moved code of its
      target, and one taken out that it leads to the target again; the others stay. */
  ghost predicate Repointed(was: Address -> Address, now: Address -> Address, ops: seq<Operation>, ps: Patches)
    requires AreIn(ops, ps)
  {
    && (forall p: Address {:trigger now(p)} :: now(p) == was(p) || exists o | o in ops :: o.pointer == p)
    && forall i | 0 <= i < |ops| && IsLast(ops, i) ::
         now(ops[i].pointer) == if ops[i].isRemove then ps[ops[i].trampoline].target else ops[i].trampoline
  }

  lemma RepointOne(was: Address -> Address, now: Address -> Address, ops: seq<Operation>, o: Operation, ps: Patches,
                   next: Address -> Address)
    requires AreIn(ops + [o], ps) && AreIn(ops, ps) && Repointed(was, now, ops, ps)
    requires next == Put(now, o.pointer, Leads(o, ps))
    ensures Repointed(was, next, ops + [o], ps)
  {
    var more := ops + [o];
    forall p: Address
      ensures next(p) == was(p) || exists q | q in more :: q.pointer == p
    {
      if p == o.pointer {
        assert o in more;
      } else if now(p) != was(p) {
        var q :| q in ops && q.pointer == p;
        assert q in more;
      }
    }
    forall i | 0 <= i < |more| && IsLast(more, i)
      ensures next(more[i].pointer) == if more[i].isRemove then ps[more[i].trampoline].target else more[i].trampoline
    {
      if i < |ops| {
        assert more[|ops|].pointer != more[i].pointer;
        assert IsLast(ops, i) by {
          assert forall j | i < j < |ops| :: ops[j] == more[j];
        }
      }
    }
  }

  /** Only bytes of the operations' targets differ. */
  ghost predicate OnlyTargets(was: Memory, now: Memory, ops: seq<Operation>, ps: Patches)
    requires AreIn(ops, ps)
  {
    forall a: Address {:trigger now(a)} :: now(a) == was(a) || exists o | o in ops :: Covers(ps[o.trampoline], a)
  }

  lemma OneMoreTarget(was: Memory, now: Memory, ops: seq<Operation>, o: Operation, ps: Patches)
    requires AreIn(ops + [o], ps) && AreIn(ops, ps) && OnlyTargets(was, now, ops, ps)
    ensures OnlyTargets(was, Overlay(now, ps[o.trampoline].target, BytesOf(o, ps)), ops + [o], ps)
  {
    var more, next := ops + [o], Overlay(now, ps[o.trampoline].target, BytesOf(o, ps));
    forall a: Address
      ensures next(a) == was(a) || exists q | q in more :: Covers(ps[q.trampoline], a)
    {
      if Covers(ps[o.trampoline], a) {
        assert o in more;
      } else if now(a) != was(a) {
        var q :| q in ops && Covers(ps[q.trampoline], a);
        assert q in more;
      }
    }
  }

  /** The state that committing changes. */
  datatype World = World(code: Memory, pointers: Address -> Address, attached: set<Address>)

  /** The world after one operation. */
  ghost function Done(w: World, o: Operation, ps: Patches): World
    requires o.trampoline in ps
  {
    World(Overlay(w.code, ps[o.trampoline].target, BytesOf(o, ps)),
          Put(w.pointers, o.pointer, Leads(o, ps)),
          One(w.attached, o))
  }

  /** The first k operations have led from `was` to `w`. */
  ghost predicate Applied(was: World, w: World, ops: seq<Operation>, ps: Patches, k: nat) {
    && k <= |ops| && AreIn(ops, ps) && AreIn(ops[..k], ps)
    && w.attached == After(was.attached, ops[..k])
    && Repointed(was.pointers, w.pointers, ops[..k], ps)
    && OnlyTargets(was.code, w.code, ops[..k], ps)
  }

  lemma ApplyNone(w: World, ops: seq<Operation>, ps: Patches)
    requires AreIn(ops, ps)
    ensures Applied(w, w, ops, ps, 0)
  {
    assert ops[..0] == [];
  }

  lemma ApplyOne(was: World, w: World, ops: seq<Operation>, ps: Patches, k: nat)
    requires Applied(was, w, ops, ps, k) && k < |ops|
    ensures ops[k].trampoline in ps && Applied(was, Done(w, ops[k], ps), ops, ps, k + 1)
  {
    var o := ops[k];
    assert ops[..k + 1] == ops[..k] + [o];
    assert ops[..k + 1][..k] == ops[..k];
    OneMoreTarget(was.code, w.code, ops[..k], o, ps);
    RepointOne(was.pointers, w.pointers, ops[..k], o, ps, Done(w, o, ps).pointers);
  }

  /** The trampolines of the operations of one kind. */
  function Picked(ops: seq<Operation>, removes: bool): set<Address> {
    if removes then Removes(ops) else Inserts(ops)
  }

  lemma PickOne(ops: seq<Operation>, ps: Patches, attached: set<Address>, removes: bool, k: nat, left: set<Address>)
    requires AllFit(ops, ps, attached) && k < |ops| && left == ps.Keys - Picked(ops[..k], removes)
    ensures var t, next := ops[k].trampoline, ps.Keys - Picked(ops[..k + 1], removes);
            if ops[k].isRemove == removes then t in left && t in Picked(ops, removes) && next == left - {t}
            else next == left
  {
    assert ops[..k + 1] == ops[..k] + [ops[k]];
    KindsSnoc(ops[..k], ops[k]);
    OthersElsewhere(ops, ps, attached, k);
    assert Fits(ops[k], ps, attached);
  }

  /** Some detour is taken out. */
  predicate AnyRemoved(ops: seq<Operation>) {
    Picked(ops, true) != {}
  }

  /** Regions without trampolines are given back, or all stay. */
  ghost predicate GivenBack(wanted: bool, was: seq<Address>, now: seq<Address>, live: set<Address>) {
    if wanted then KeptUsed(was, now, live) else now == was
  }

  /** What is left when the trampolines of one kind are freed is exactly the detours in place. */
  ghost predicate LeavesThem(removes: bool, ops: seq<Operation>, ps: Patches, attached: set<Address>,
                             was: set<Address>) {
    AllFit(ops, ps, was) && ps.Keys - Picked(ops, removes) == attached && Picked(ops, removes) !! attached
  }

  /** The same for removals, looked at only where an instance is named. */
  ghost predicate IsApplied(ops: seq<Operation>, ps: Patches, attached: set<Address>, was: set<Address>) {
    forall removes: bool {:trigger LeavesThem(removes, ops, ps, attached, was)} | removes ::
      LeavesThem(removes, ops, ps, attached, was)
  }

  /** The trampolines left when all of one kind are freed. */
  ghost predicate Leaves(ops: seq<Operation>, ps: Patches, removes: bool, k: nat, left: set<Address>) {
    k <= |ops| && left == ps.Keys - Picked(ops[..k], removes)
  }

  /** After a commit, exactly the detours in place have a trampoline. */
  lemma CommitLeaves(attached: set<Address>, ops: seq<Operation>, ps: Patches)
    requires AllFit(ops, ps, attached) && ps.Keys == attached + Inserts(ops)
    ensures ps.Keys - Removes(ops) == After(attached, ops)
    ensures Removes(ops) !! After(attached, ops)
  {
    AfterIs(attached, ops, ps);
  }

  /** And after an abort, those that were in place before. */
  lemma AbortLeaves(attached: set<Address>, ops: seq<Operation>, ps: Patches)
    requires AllFit(ops, ps, attached) && ps.Keys == attached + Inserts(ops)
    ensures ps.Keys - Inserts(ops) == attached && Inserts(ops) !! attached
  {
    forall t | t in Inserts(ops)
      ensures t !in attached
    {
      var o :| o in ops && !o.isRemove && o.trampoline == t;
      var i :| 0 <= i < |ops| && ops[i] == o;
      assert Fits(ops[i], ps, attached);
    }
  }

  lemma FitIsIn(ops: seq<Operation>, ps: Patches, attached: set<Address>)
    requires AllFit(ops, ps, attached)
    ensures AreIn(ops, ps)
  {
    forall o | o in ops
      ensures o.trampoline in ps
    {
      var i :| 0 <= i < |ops| && ops[i] == o;
      assert Fits(ops[i], ps, attached);
    }
  }

  /** What a commit leaves. */
  ghost predicate Committed(was: World, w: World, ops: seq<Operation>, ps: Patches) {
    && w.attached == After(was.attached, ops) && AreIn(ops, ps)
    && Repointed(was.pointers, w.pointers, ops, ps) && OnlyTargets(was.code, w.code, ops, ps)
  }

  /** All operations are done. */
  lemma AllApplied(was: World, w: World, ops: seq<Operation>, ps: Patches)
    requires Applied(was, w, ops, ps, |ops|)
    ensures Committed(was, w, ops, ps) == true
  {
    assert ops[..|ops|] == ops;
  }

  /** Trampolines that know their patch go on outside their region. */
  lemma DescribedIsAnchored(slots: Slots, ps: Patches)
    requires AllDescribed(slots, ps)
    ensures forall t | t in ps :: !Stays(RegionOf(t), slots, t)
  {
    forall t | t in ps
      ensures !Stays(RegionOf(t), slots, t)
    {
      assert Describes(slots(t), t, ps[t]);
    }
  }

  // ---- New operations ----

  /** One more operation, on a trampoline that has none yet. */
  lemma PushFits(o: Operation, ops: seq<Operation>, ps: Patches, attached: set<Address>)
    requires AllFit(ops, ps, attached) && Fits(o, ps, attached)
    requires o.trampoline !in Picked(ops, o.isRemove)
    ensures AllFit([o] + ops, ps, attached)
    ensures Inserts([o] + ops) == Inserts(ops) + if o.isRemove then {} else {o.trampoline}
  {
    var more := [o] + ops;
    forall i | 0 <= i < |ops|
      ensures ops[i].trampoline != o.trampoline
    {
      assert Fits(ops[i], ps, attached);
    }
    forall i | 0 <= i < |more|
      ensures Fits(more[i], ps, attached)
    {
      assert i > 0 ==> more[i] == ops[i - 1] && Fits(ops[i - 1], ps, attached);
    }
  }

  /** Every trampoline is of a detour in place or of one to be attached, and only a pending transaction has
      operations. */
  ghost predicate IsPending(ps: Patches, attached: set<Address>, active: bool, ops: seq<Operation>) {
    AllFit(ops, ps, attached) && ps.Keys == attached + Inserts(ops) && (!active ==> ops == [])
  }

  lemma PushInsert(o: Operation, ops: seq<Operation>, ps: Patches, attached: set<Address>, p: Patch)
    requires IsPending(ps, attached, true, ops) && !o.isRemove && o.trampoline !in ps && o.target == p.target
    ensures IsPending(ps[o.trampoline := p], attached, true, [o] + ops)
  {
    var t, qs := o.trampoline, ps[o.trampoline := p];
    MorePatchesFit(ops, ps, attached, t, p);
    PushFits(o, ops, qs, attached);
    assert qs.Keys == ps.Keys + {t};
  }

  lemma PushRemove(o: Operation, ops: seq<Operation>, ps: Patches, attached: set<Address>)
    requires IsPending(ps, attached, true, ops) && o.isRemove && o.trampoline in attached
    requires o.trampoline !in Removes(ops) && o.target == ps[o.trampoline].target
    ensures IsPending(ps, attached, true, [o] + ops)
  {
    PushFits(o, ops, ps, attached);
  }

  /** Operations do not mind another patch. */
  lemma MorePatchesFit(ops: seq<Operation>, ps: Patches, attached: set<Address>, t: Address, p: Patch)
    requires AllFit(ops, ps, attached) && t !in ps
    ensures AllFit(ops, ps[t := p], attached) && t !in Inserts(ops)
  {
    FitIsIn(ops, ps, attached);
    forall i | 0 <= i < |ops|
      ensures Fits(ops[i], ps[t := p], attached)
    {
      assert Fits(ops[i], ps, attached);
    }
  }

  /** The code at `target` is no detour's, nor in a region of trampolines. */
  ghost predicate Clear(target: Address, cb: nat, ps: Patches, regions: seq<Address>, region: Option<Address>) {
    && target + cb < TWO64
    && (forall t | t in ps :: target + cb <= ps[t].target || ps[t].target + |ps[t].restore| <= target)
    && (forall r | r in regions :: !Inside(r, target + cb))
    && (region.Some? ==> !Inside(region.value, target + cb))
  }

  /** The code at `target` is clear, and can be moved to any trampoline that is in reach. */
  ghost predicate Movable(mem: Memory, target: Address, ps: Patches, regions: seq<Address>, region: Option<Address>) {
    forall t: Address {:trigger Within(t, Bounds(mem, target))} ::
      && Clear(target, ReplacedSize(mem, target), ps, regions, region)
      && (Within(t, Bounds(mem, target)) ==> CopyFits(mem, target, t))
  }

  /** The patch of a new detour. */
  function NewPatch(code: Memory, target: Address, t: Address, cb: nat, sources: seq<seq<Byte>>, moved: seq<Byte>,
                    detour: Address): (p: Patch)
    requires SIZE_OF_JMP <= cb && target + cb < TWO64 && t + TRAMPOLINE_SIZE < TWO64
    ensures p.target == target && |p.restore| == cb && p.sources == sources && p.moved == moved && p.detour == detour
    ensures Restores(p, code)
  {
    Change(target, BytesAt(code, target, cb), JumpBytes(target, t, cb), sources, moved, detour)
  }

  /** What comes to a trampoline for a target. */
  ghost predicate IsCopied(mem: Memory, target: Address, t: Address, cb: nat, sources: seq<seq<Byte>>,
                           moved: seq<Byte>) {
    && CanCopy(TextAt(mem, target), target, t) && cb == ReplacedSize(mem, target)
    && sources == Instructions(mem, target) && moved == Moved(BlockOf(TextAt(mem, target), target, t))
  }

  /** The text of a target is the code there. */
  lemma ReadIs(mem: Memory, target: Address, k: nat, m: nat)
    requires k <= m && target + m < TWO64
    ensures Read(TextAt(mem, target), k, m - k) == BytesAt(mem, target, m)[k..]
  {
    forall i | 0 <= i < m - k
      ensures Read(TextAt(mem, target), k, m - k)[i] == BytesAt(mem, target, m)[k..][i]
    {
      NoWrap(target + (k + i));
    }
  }

  lemma NewMoved(mem: Memory, target: Address, t: Address, cb: nat, sources: seq<seq<Byte>>, moved: seq<Byte>,
                 detour: Address)
    requires IsCopied(mem, target, t, cb, sources, moved)
    requires SIZE_OF_JMP <= cb && target + cb < TWO64 && t + TRAMPOLINE_SIZE < TWO64
    ensures IsMovedCode(NewPatch(mem, target, t, cb, sources, moved, detour), t)
  {
    AllAreBlock(TextAt(mem, target), target, t);
    NewReplaced(mem, target, TextAt(mem, target), cb, sources);
  }

  lemma NewReplaced(mem: Memory, target: Address, code: Text, cb: nat, sources: seq<seq<Byte>>)
    requires code == TextAt(mem, target) && sources == All(Code(code)) && cb == TargetSize(Code(code))
    requires target + cb < TWO64
    ensures IsReplaced(sources, BytesAt(mem, target, cb))
  {
    AllRead(code);
    PaddingRead(code);
    var n := End(sources);
    var first, rest := Read(code, 0, n), Read(code, n, cb - n);
    ReadIs(mem, target, 0, n);
    ReadIs(mem, target, n, cb);
    IsSum(mem, target, sources, cb, n, first, rest);
  }

  lemma IsSum(mem: Memory, target: Address, sources: seq<seq<Byte>>, cb: nat, n: nat, first: seq<Byte>, rest: seq<Byte>)
    requires n <= cb && target + cb < TWO64
    requires first == BytesAt(mem, target, n)[0..] && rest == BytesAt(mem, target, cb)[n..]
    requires Joined(sources) == first && IsPadding(rest)
    ensures IsReplaced(sources, BytesAt(mem, target, cb))
  {
    assert first == BytesAt(mem, target, cb)[..n];
  }

  /** What filling in a trampoline takes. */
  ghost predicate Fillable(code: Memory, target: Address, t: Address, cb: nat, moved: seq<Byte>, ps: Patches,
                           regions: seq<Address>) {
    && t != NULL && Belongs(regions, t) && Within(t, Bounds(code, target))
    && SIZE_OF_JMP <= cb <= CODE_SIZE - SIZE_OF_JMP && Clear(target, cb, ps, regions, None)
    && SparesCode(BytesAt(code, target, cb), |moved|)
  }

  /** A trampoline for the code at `target`. */
  ghost predicate IsPlace(mem: Memory, target: Address, t: Address, ps: Patches, regions: seq<Address>) {
    && t != NULL && Belongs(regions, t) && Within(t, Bounds(mem, target))
    && Clear(target, ReplacedSize(mem, target), ps, regions, None)
    && CopyFits(mem, target, t) && CanCopy(TextAt(mem, target), target, t)
  }

  lemma PlaceIs(mem: Memory, target: Address, ps: Patches, was: seq<Address>, regions: seq<Address>,
                region: Option<Address>, t: Address)
    requires Movable(mem, target, ps, was, region) && Within(t, Bounds(mem, target)) && Belongs(regions, t)
    requires regions == was || (region.Some? && regions == [region.value] + was)
    ensures IsPlace(mem, target, t, ps, regions)
  {
    assert Clear(target, ReplacedSize(mem, target), ps, was, region) && CopyFits(mem, target, t);
  }

  /** What the copying leaves can be filled in. */
  lemma CopiedFills(mem: Memory, target: Address, t: Address, cb: nat, moved: seq<Byte>, ps: Patches,
                    regions: seq<Address>)
    requires IsPlace(mem, target, t, ps, regions) && cb == ReplacedSize(mem, target)
    requires moved == Moved(BlockOf(TextAt(mem, target), target, t)) && SIZE_OF_JMP <= cb <= CODE_SIZE - SIZE_OF_JMP
    ensures Fillable(mem, target, t, cb, moved, ps, regions)
    ensures IsCopied(mem, target, t, cb, Instructions(mem, target), moved)
  {
  }

  predicate IsNew(p: Patch, sources: seq<seq<Byte>>, detour: Address) {
    p.sources == sources && p.detour == detour
  }

  /** What comes of an attach to a target, of which `cb` bytes would be replaced. */
  ghost predicate IsOutcome(r: Status, place: bool, cb: nat, protect: bool) {
    && (r == NoError <==> place && SIZE_OF_JMP <= cb && protect)
    && (r == NotEnoughMemory <==> !place)
    && (r == InvalidBlock <==> place && cb < SIZE_OF_JMP)
    && (r == AccessDenied <==> place && SIZE_OF_JMP <= cb && !protect)
  }

  /** One more operation is pending, to put a new detour in place; the other patches are as they were. */
  ghost predicate Noted(was: seq<Operation>, ops: seq<Operation>, had: Patches, ps: Patches, pointer: Address,
                        target: Address, sources: seq<seq<Byte>>, detour: Address) {
    && |ops| == |was| + 1 && ops[1..] == was
    && var t := ops[0].trampoline;
       && ops[0] == Operation(false, pointer, target, t)
       && t !in had && ps.Keys == had.Keys + {t} && Unchanged(had, ps) && IsNew(ps[t], sources, detour)
  }

  lemma NoteOne(o: Operation, ops: seq<Operation>, ps: Patches, p: Patch, sources: seq<seq<Byte>>,
                detour: Address)
    requires !o.isRemove && o.trampoline !in ps && IsNew(p, sources, detour)
    ensures Noted(ops, [o] + ops, ps, ps[o.trampoline := p], o.pointer, o.target, sources, detour)
  {
  }

  /** What DetourAttachEx writes to a new trampoline: the moved code, the original code, where to go, and the jump
      behind the moved code. */
  function NewTrampoline(code: Memory, target: Address, t: Address, cb: nat, moved: seq<Byte>, detour: Address,
                         was: Trampoline): Trampoline
    requires SIZE_OF_JMP <= cb && target + cb < TWO64 && |moved| <= CODE_SIZE && t + TRAMPOLINE_SIZE < TWO64
  {
    var jump := JmpIndirect(t + |moved|, t + PB_REMAIN);
    Trampoline(moved + jump, SavedCode(BytesAt(code, target, cb), |moved|, jump), cb, target + cb, detour, was.rbCodeIn)
  }

  /** And that is what its patch says. */
  lemma NewDescribed(code: Memory, target: Address, t: Address, cb: nat, sources: seq<seq<Byte>>, moved: seq<Byte>,
                     detour: Address, was: Trampoline)
    requires SIZE_OF_JMP <= cb <= CODE_SIZE - SIZE_OF_JMP && target + cb < TWO64
    requires SparesCode(BytesAt(code, target, cb), |moved|) && t + TRAMPOLINE_SIZE < TWO64 && t != NULL
    requires Within(t, Bounds(code, target)) && !Inside(RegionOf(t), target + cb)
    ensures Describes(NewTrampoline(code, target, t, cb, moved, detour, was), t,
                      NewPatch(code, target, t, cb, sources, moved, detour))
  {
    JumpsBack(t, |moved|);
    SavedWhole(BytesAt(code, target, cb), |moved|);
    InReach(code, target, t, RB_CODE_IN, SIZE_OF_JMP);
  }

  /** A slot ends before the end of its region. */
  lemma SlotEnds(regions: seq<Address>, t: Address)
    requires Belongs(regions, t)
    ensures t + TRAMPOLINE_SIZE < TWO64
  {
    var i: nat :| FIRST_SLOT <= i < PER_REGION && t == SlotAt(RegionOf(t), i);
  }

  lemma MoreDescribed(slots: Slots, now: Slots, ps: Patches, attached: set<Address>, t: Address, p: Patch)
    requires AllDescribed(slots, ps) && AllArmed(slots, attached) && t !in ps && attached <= ps.Keys
    requires Describes(now(t), t, p) && IsMovedCode(p, t) && forall a | a in ps :: now(a) == slots(a)
    ensures AllDescribed(now, ps[t := p]) && AllArmed(now, attached)
  {
    MoreMoved(ps, t, p);
    forall u | u in ps
      ensures Describes(now(u), u, ps[u])
    {
      assert Describes(slots(u), u, ps[u]);
    }
    forall u | u in attached
      ensures Armed(now(u), u)
    {
      assert Armed(slots(u), u);
    }
  }

  lemma MoreMoved(ps: Patches, t: Address, p: Patch)
    requires AllMoved(ps) && IsMovedCode(p, t)
    ensures AllMoved(ps[t := p])
  {
    var qs := ps[t := p];
    forall u | u in qs
      ensures IsMovedCode(qs[u], u)
    {
      assert u != t ==> IsMovedCode(ps[u], u);
    }
  }

  /** What is written to a trampoline is what its patch says. */
  lemma NewSlot(code: Memory, target: Address, t: Address, cb: nat, sources: seq<seq<Byte>>, moved: seq<Byte>,
                detour: Address, was: Trampoline, ps: Patches, regions: seq<Address>)
    requires Fillable(code, target, t, cb, moved, ps, regions) == true && t + TRAMPOLINE_SIZE < TWO64
    requires IsCopied(code, target, t, cb, sources, moved) == true
    ensures var p := NewPatch(code, target, t, cb, sources, moved, detour);
            && Describes(NewTrampoline(code, target, t, cb, moved, detour, was), t, p) && IsMovedCode(p, t)
            && forall u | u in ps :: AreApart(ps[u], p) && AreApart(p, ps[u])
  {
    NewDescribed(code, target, t, cb, sources, moved, detour, was);
    NewMoved(code, target, t, cb, sources, moved, detour);
  }

  /** Slots that are not written say what they said. */
  lemma SlotsKept(slots: Slots, now: Slots, ps: Patches, attached: set<Address>)
    requires AllDescribed(slots, ps) && AllArmed(slots, attached) && attached <= ps.Keys
    requires forall a | a in ps :: now(a) == slots(a)
    ensures AllDescribed(now, ps) && AllArmed(now, attached)
  {
    forall u | u in ps
      ensures Describes(now(u), u, ps[u])
    {
      assert Describes(slots(u), u, ps[u]);
    }
    forall u | u in attached
      ensures Armed(now(u), u)
    {
      assert Armed(slots(u), u);
    }
  }

  lemma DescribedLeads(slots: Slots, ps: Patches, t: Address)
    requires AllDescribed(slots, ps) && t in ps
    ensures LeadsTo(ps[t], t) && slots(t).pbDetour == ps[t].detour
  {
    assert Describes(slots(t), t, ps[t]);
  }

  /** A trampoline begins with the moved code, behind which it jumps through its pointer to what follows the code
      that was moved. */
  ghost predicate Continues(v: Trampoline, t: Address, p: Patch) {
    var n := |p.moved|;
    && |v.rbCode| == n + SIZE_OF_INDIRECT && v.rbCode[..n] == p.moved
    && t + n < TWO64 && IndirectPointer(t + n, v.rbCode[n..]) == t + PB_REMAIN
    && v.pbRemain == p.target + |p.restore|
  }

  /** Instruction k was there before. */
  ghost predicate WasThere(p: Patch, original: Memory, k: nat)
    requires k < |p.sources|
  {
    && p.target + Offset(p.sources, k) + |p.sources[k]| < TWO64
    && BytesAt(original, p.target + Offset(p.sources, k), |p.sources[k]|) == p.sources[k]
  }

  lemma SourceWasThere(p: Patch, original: Memory, k: nat)
    requires Joined(p.sources) <= p.restore && p.target + |p.restore| < TWO64 && Restores(p, original) &&
             k < |p.sources|
    ensures WasThere(p, original, k)
  {
    PartAt(p.sources, k);
    PartIsOriginal(p, original, Joined(p.sources), p.sources[k], Offset(p.sources, k));
  }

  lemma SourcesWereThere(slots: Slots, ps: Patches, t: Address, original: Memory)
    requires AllDescribed(slots, ps) && t in ps && Restores(ps[t], original)
    ensures forall k | 0 <= k < |ps[t].sources| :: WasThere(ps[t], original, k)
  {
    MovedIs(slots, ps, t);
    DescribedLeads(slots, ps, t);
    forall k | 0 <= k < |ps[t].sources|
      ensures WasThere(ps[t], original, k)
    {
      SourceWasThere(ps[t], original, k);
    }
  }

  lemma PartIsOriginal(p: Patch, original: Memory, joined: seq<Byte>, s: seq<Byte>, at: nat)
    requires Restores(p, original) && p.target + |p.restore| < TWO64 && joined <= p.restore
    requires at + |s| <= |joined| && joined[at..at + |s|] == s
    ensures p.target + at + |s| < TWO64 && BytesAt(original, p.target + at, |s|) == s
  {
    forall i | 0 <= i < |s|
      ensures BytesAt(original, p.target + at, |s|)[i] == s[i]
    {
      assert Covers(p, p.target + at + i) && s[i] == joined[at..at + |s|][i] == p.restore[at + i];
    }
  }

  lemma MovedIs(slots: Slots, ps: Patches, t: Address)
    requires AllDescribed(slots, ps) && t in ps
    ensures IsMovedCode(ps[t], t) && ps[t].moved <= slots(t).rbCode
  {
    assert Describes(slots(t), t, ps[t]);
    assert AllMoved(ps) && IsMovedCode(ps[t], t);
  }

  lemma ReachRemain(v: Trampoline, t: Address, p: Patch)
    requires Describes(v, t, p)
    ensures Continues(v, t, p)
  {
    IndirectJumps(t + |p.moved|, t + PB_REMAIN);
  }

  /** From the target of a detour in place through its trampoline to the detour. */
  lemma ReachDetour(code: Memory, original: Memory, ps: Patches, attached: set<Address>, slots: Slots, t: Address)
    requires IsImage(code, original, ps, attached) && t in attached
    requires AllDescribed(slots, ps) && AllArmed(slots, attached)
    ensures t in ps && t + TRAMPOLINE_SIZE < TWO64
    ensures code(ps[t].target) == 0xe9 && ps[t].target + SIZE_OF_JMP < TWO64
    ensures ImmediateTarget(ps[t].target, BytesAt(code, ps[t].target, SIZE_OF_JMP)) == t + RB_CODE_IN
    ensures |slots(t).rbCodeIn| == 6 && IndirectPointer(t + RB_CODE_IN, slots(t).rbCodeIn) == t + PB_DETOUR
    ensures slots(t).pbDetour == ps[t].detour
  {
    DescribedLeads(slots, ps, t);
    assert Armed(slots(t), t);
    AttachedJumps(code, original, ps, attached, t);
    IndirectJumps(t + RB_CODE_IN, t + PB_DETOUR);
  }
}
