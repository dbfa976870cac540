/** The transactions of the detours: pending operations, and the code they change when they are committed.
    A clause `P() == true` is proved as one fact, and not conjunct by conjunct, which keeps the proofs quick. */
module DetourTransaction {
  import opened Prelude
  import opened Addresses
  import opened DetourJump
  import opened Trampolines
  import opened Allocator
  import opened DetourPatch
  import opened Detours
  import opened X64Instruction
  import opened X64Moved
  import X64Format
  import X64Padding
  import opened MovedCode
  import opened TargetCopy

  class Transaction {
    const alloc: Allocator

    /** The code outside the trampolines, and the pointers that callers detour through. */
    var code: Memory
    var pointers: Address -> Address

    /** Whether a transaction is pending, its first error and the pointer that caused it, and its operations,
        the latest first. */
    var active: bool
    var error: Status
    var culprit: Option<Address>
    var ops: seq<Operation>
    var ignoreTooSmall: bool
    var retainRegions: bool

    /** The code before any detour, the patch of each trampoline, and the detours that are in place. */
    ghost var original: Memory
    ghost var ps: Patches
    ghost var attached: set<Address>

    /** The code is the original one but for the detours in place, and each trampoline knows its patch. */
    ghost predicate Core()
      reads `code, `original, `ps, `attached, alloc
    {
      && alloc.Valid() && ps.Keys == alloc.live
      && IsImage(code, original, ps, attached)
      && AllDescribed(alloc.slots, ps) && AllArmed(alloc.slots, attached)
    }

    /** And every trampoline is of a detour in place or of one to be attached. */
    ghost predicate Valid()
      reads `code, `original, `ps, `attached, `active, `ops, alloc
    {
      Core() && Pending()
    }

    ghost predicate Pending()
      reads `ps, `attached, `active, `ops
    {
      IsPending(ps, attached, active, ops)
    }

    constructor (code: Memory, pointers: Address -> Address)
      ensures Valid() && fresh(alloc)
      ensures this.code == code && original == code && this.pointers == pointers && attached == {} && !active
    {
      alloc := new Allocator();
      this.code, this.pointers := code, pointers;
      active, error, culprit, ops := false, NoError, None, [];
      ignoreTooSmall, retainRegions := false, false;
      original, ps, attached := code, map[], {};
    }

    /** DetourTransactionBegin, for one thread; `status` is that of making the trampolines writable. */
    method Begin(status: Status) returns (r: Status)
      requires Valid() == true
      modifies `active, `error, `culprit, `ops
      ensures Valid() == true
      ensures old(active) ==> r == InvalidOperation && ops == old(ops) && error == old(error)
      ensures !old(active) ==> r == status && active && error == status && ops == [] && culprit == None
    {
      if active {
        return InvalidOperation;
      }
      active, ops, culprit, error := true, [], None, status;
      return error;
    }

    // ---- Committing ----

    /** detour_gen_jmp_immediate and detour_gen_brk: the bytes that come to a target. */
    method GenJump(target: Address, t: Address, cb: nat) returns (s: seq<Byte>)
      requires t + RB_CODE_IN < TWO64 && SIZE_OF_JMP <= cb
      ensures s == JumpBytes(target, t, cb)
    {
      s := JmpImmediate(target, t + RB_CODE_IN);
      while |s| < cb
        invariant SIZE_OF_JMP <= |s| <= cb && s == JumpBytes(target, t, |s|)
      {
        s := s + [0xcc];
      }
    }

    /** detour_gen_jmp_indirect into the entry of a trampoline. */
    method Arm(t: Address)
      requires Core() == true && t in ps && t + TRAMPOLINE_SIZE < TWO64
      modifies alloc`slots
      ensures Core() == true && Armed(alloc.slots(t), t)
    {
      ghost var slots := alloc.slots;
      alloc.Write(t, alloc.slots(t).(rbCodeIn := JmpIndirect(t + RB_CODE_IN, t + PB_DETOUR)));
      ArmOne(slots, alloc.slots, ps, attached, t);
    }

    /** Puts a detour in place. */
    method Insert(o: Operation)
      requires Core() == true && Fits(o, ps, attached) && !o.isRemove
      modifies `code, `pointers, `attached, alloc`slots
      ensures Core() == true && attached == old(attached) + {o.trampoline}
      ensures pointers == Put(old(pointers), o.pointer, o.trampoline)
      ensures code == Overlay(old(code), ps[o.trampoline].target, ps[o.trampoline].jump)
    {
      assert Describes(alloc.slots(o.trampoline), o.trampoline, ps[o.trampoline]);
      Arm(o.trampoline);
      Place(o);
    }

    method Place(o: Operation)
      requires Core() == true && Fits(o, ps, attached) && !o.isRemove
      requires Armed(alloc.slots(o.trampoline), o.trampoline) == true
      modifies `code, `pointers, `attached
      ensures Core() == true && attached == old(attached) + {o.trampoline}
      ensures pointers == Put(old(pointers), o.pointer, o.trampoline)
      ensures code == Overlay(old(code), ps[o.trampoline].target, ps[o.trampoline].jump)
    {
      var t := o.trampoline;
      PlaceKeeps(code, original, ps, attached, alloc.slots, t);
      var jump := GenJump(o.target, t, alloc.slots(t).cbRestore);
      assert jump == ps[t].jump;
      code := Overlay(code, o.target, jump);
      pointers := Put(pointers, o.pointer, t);
      attached := attached + {t};
      assert IsImage(code, original, ps, attached) == true;
    }

    /** Takes a detour out again. */
    method Remove(o: Operation)
      requires Core() == true && Fits(o, ps, attached) && o.isRemove
      modifies `code, `pointers, `attached
      ensures Core() == true && attached == old(attached) - {o.trampoline}
      ensures pointers == Put(old(pointers), o.pointer, ps[o.trampoline].target)
      ensures code == Overlay(old(code), ps[o.trampoline].target, ps[o.trampoline].restore)
    {
      var t := o.trampoline;
      assert Describes(alloc.slots(t), t, ps[t]);
      RemoveImaged(code, original, ps, attached, t);
      code := Overlay(code, o.target, alloc.slots(t).rbRestore);
      pointers := Put(pointers, o.pointer, o.target);
      attached := attached - {t};
    }

    /** Frees a trampoline whose detour is not in place. */
    method Release(t: Address)
      requires Core() == true && t in ps && t !in attached
      modifies `ps, alloc`pFree, alloc`slots, alloc`chain, alloc`live
      ensures Core() == true && ps == old(ps) - {t}
    {
      DropPatch(code, original, ps, attached, t);
      ghost var slots, less := alloc.slots, ps - {t};
      assert less.Keys == ps.Keys - {t};
      alloc.Free(t);
      ForgetOne(slots, alloc.slots, ps, attached, t);
      ps := less;
      assert IsImage(code, original, ps, attached) == true;
    }

    ghost function TheWorld(): World
      reads `code, `pointers, `attached
    {
      World(code, pointers, attached)
    }

    /** One turn of the first loop of DetourTransactionCommitEx. */
    method Apply(o: Operation)
      requires Core() == true && Fits(o, ps, attached)
      modifies `code, `pointers, `attached, alloc`slots
      ensures Core() == true && TheWorld() == Done(old(TheWorld()), o, ps)
    {
      if o.isRemove {
        Remove(o);
      } else {
        Insert(o);
      }
    }

    /** That loop. */
    method ApplyAll()
      requires Core() == true && AllFit(ops, ps, attached) == true
      modifies `code, `pointers, `attached, alloc`slots
      ensures Core() == true && Applied(old(TheWorld()), TheWorld(), ops, ps, |ops|) == true
    {
      ghost var was := TheWorld();
      ApplyNone(was, ops, ps);
      for k := 0 to |ops|
        invariant Core() == true && Applied(was, TheWorld(), ops, ps, k) == true
      {
        StillFits(was.attached, ops, ps, k);
        ApplyOne(was, TheWorld(), ops, ps, k);
        Apply(ops[k]);
      }
    }

    /** Frees the trampolines of the detours taken out, or of those that were not put in. */
    method ReleaseAll(removes: bool, ghost fit: set<Address>) returns (freed: bool)
      requires Core() == true && AllFit(ops, ps, fit) == true && Picked(ops, removes) !! attached
      modifies `ps, alloc`pFree, alloc`slots, alloc`chain, alloc`live
      ensures Core() == true && ps.Keys == old(ps.Keys) - Picked(ops, removes) && Unchanged(old(ps), ps) == true
      ensures freed <==> Picked(ops, removes) != {}
    {
      freed := false;
      ghost var all := ps;
      for k := 0 to |ops|
        invariant Core() == true && Leaves(ops, all, removes, k, ps.Keys) == true && Unchanged(all, ps)
        invariant freed <==> Picked(ops[..k], removes) != {}
      {
        PickOne(ops, all, fit, removes, k, ps.Keys);
        if ops[k].isRemove == removes {
          Release(ops[k].trampoline);
          freed := true;
        }
      }
      assert ops[..|ops|] == ops;
    }

    /** DetourTransactionAbort: no byte of code and no pointer changes, and the trampolines of what was to be
        attached are free again. */
    method Abort() returns (r: Status)
      requires Valid() == true
      modifies `active, `ops, `ps, alloc`pFree, alloc`slots, alloc`chain, alloc`live
      ensures Valid() == true
      ensures !old(active) ==> r == InvalidOperation && ps == old(ps)
      ensures old(active) ==> r == NoError && !active && ops == [] && ps.Keys == attached
      ensures Unchanged(old(ps), ps) == true
    {
      if !active {
        return InvalidOperation;
      }
      AbortLeaves(attached, ops, ps);
      var _ := ReleaseAll(false, attached);
      Close();
      return NoError;
    }

    /** No transaction is pending, and every trampoline is of a detour in place. */
    ghost predicate IsClosed()
      reads `code, `original, `ps, `attached, `active, `ops, alloc
    {
      Valid() && !active && ops == [] && ps.Keys == attached
    }

    /** The end of a transaction. */
    method Close()
      requires Core() == true && ps.Keys == attached
      modifies `active, `ops
      ensures IsClosed() == true
    {
      active, ops := false, [];
      assert Inserts(ops) == {};
    }

    /** detour_free_unused_trampoline_regions, after a detach. */
    method GiveBack(wanted: bool)
      requires Core() == true
      modifies alloc`regions, alloc`current
      ensures Core() == true && GivenBack(wanted, old(alloc.regions), alloc.regions, ps.Keys) == true
    {
      if wanted {
        DescribedIsAnchored(alloc.slots, ps);
        alloc.FreeUnused();
      }
    }

    /** Frees the trampolines of the detours taken out. */
    method ReleaseRemoved(ghost was: set<Address>) returns (freed: bool)
      requires Core() == true && IsApplied(ops, ps, attached, was) == true
      modifies `ps, alloc`pFree, alloc`slots, alloc`chain, alloc`live
      ensures Core() == true && ps.Keys == attached && Unchanged(old(ps), ps) == true
      ensures freed <==> AnyRemoved(ops)
    {
      assert LeavesThem(true, ops, ps, attached, was);
      freed := ReleaseAll(true, was);
    }

    /** The first loop, with what it leaves for the others. */
    method ApplyOps()
      requires Valid() == true
      modifies `code, `pointers, `attached, alloc`slots
      ensures Core() == true && IsApplied(ops, ps, attached, old(attached)) == true
      ensures Committed(old(TheWorld()), TheWorld(), ops, ps) == true
    {
      ghost var was := TheWorld();
      ApplyAll();
      AllApplied(was, TheWorld(), ops, ps);
      CommitLeaves(was.attached, ops, ps);
    }

    /** The last loops of DetourTransactionCommitEx. */
    method Clean(ghost was: set<Address>)
      requires Core() == true && IsApplied(ops, ps, attached, was) == true
      modifies `active, `ops, `ps, alloc
      ensures IsClosed() == true && Unchanged(old(ps), ps) == true
      ensures GivenBack(AnyRemoved(old(ops)) && !retainRegions, old(alloc.regions), alloc.regions, attached) == true
    {
      var freed := ReleaseRemoved(was);
      GiveBack(freed && !retainRegions);
      Close();
    }

    /** All its loops. */
    method Perform()
      requires Valid() == true
      modifies `code, `pointers, `attached, `active, `ops, `ps, alloc
      ensures IsClosed() == true && Unchanged(old(ps), ps) == true
      ensures GivenBack(AnyRemoved(old(ops)) && !retainRegions, old(alloc.regions), alloc.regions, attached) == true
      ensures Committed(old(TheWorld()), TheWorld(), old(ops), old(ps)) == true
    {
      ghost var was := attached;
      ApplyOps();
      Clean(was);
    }

    /** DetourTransactionCommitEx: all operations are done, in the order opposite to that of the calls, or none
        if one of the calls failed. */
    method Commit() returns (r: Status)
      requires Valid() == true
      modifies `code, `pointers, `attached, `active, `ops, `ps, alloc
      ensures Valid() == true
      ensures !old(active) ==> r == InvalidOperation && code == old(code) && pointers == old(pointers) && ps == old(ps)
      ensures old(active) ==> !active && ops == [] && r == old(error) && ps.Keys == attached
      ensures Unchanged(old(ps), ps) == true
      ensures old(active) && r != NoError ==>
                code == old(code) && pointers == old(pointers) && attached == old(attached)
      ensures !old(active) || r != NoError ==> alloc.regions == old(alloc.regions)
      ensures old(active) && r == NoError ==>
                GivenBack(AnyRemoved(old(ops)) && !retainRegions, old(alloc.regions), alloc.regions, attached)
      ensures old(active) && r == NoError ==>
                && attached == After(old(attached), old(ops))
                && AreIn(old(ops), old(ps)) && Repointed(old(pointers), pointers, old(ops), old(ps))
                && OnlyTargets(old(code), code, old(ops), old(ps))
    {
      if !active {
        return InvalidOperation;
      }
      if error != NoError {
        var _ := Abort();
        return error;
      }
      Perform();
      return error;
    }

    // ---- Attaching ----

    /** The labels `fail` and `stop`: the first error is kept, but for one that callers may ignore. */
    method Fail(e: Status, pointer: Address)
      modifies `error, `culprit
      ensures culprit == Some(pointer)
      ensures error == if e == InvalidBlock && ignoreTooSmall then old(error) else e
    {
      if !(e == InvalidBlock && ignoreTooSmall) {
        error := e;
      }
      culprit := Some(pointer);
    }

    /** The trampolines while one is being filled in. */
    ghost predicate Filling(t: Address)
      reads `code, `original, `ps, `attached, alloc
    {
      && alloc.Valid() && t !in ps && alloc.live == ps.Keys + {t}
      && IsImage(code, original, ps, attached)
      && AllDescribed(alloc.slots, ps) && AllArmed(alloc.slots, attached)
    }

    /** The part of DetourAttachEx that fills in a trampoline and notes the operation. */
    method Fill(o: Operation, cb: nat, ghost sources: seq<seq<Byte>>, moved: seq<Byte>, detour: Address)
      requires Filling(o.trampoline) == true && Pending() == true && active
      requires !o.isRemove && Fillable(code, o.target, o.trampoline, cb, moved, ps, alloc.regions) == true
      requires IsCopied(code, o.target, o.trampoline, cb, sources, moved) == true
      modifies `ps, `ops, alloc`slots
      ensures Valid() == true && Noted(old(ops), ops, old(ps), ps, o.pointer, o.target, sources, detour) == true
    {
      ghost var p := WriteSlot(o.target, o.trampoline, cb, sources, moved, detour);
      NoteOne(o, ops, ps, p, sources, detour);
      Push(o, p);
    }

    /** Fills in a trampoline. */
    method WriteSlot(target: Address, t: Address, cb: nat, ghost sources: seq<seq<Byte>>, moved: seq<Byte>,
                     detour: Address)
      returns (ghost p: Patch)
      requires Filling(t) == true && Fillable(code, target, t, cb, moved, ps, alloc.regions) == true
      requires IsCopied(code, target, t, cb, sources, moved) == true
      modifies alloc`slots
      ensures alloc.Valid() && t !in ps && alloc.live == ps.Keys + {t}
      ensures p.target == target && IsNew(p, sources, detour)
      ensures IsImage(code, original, ps[t := p], attached) == true
      ensures AllDescribed(alloc.slots, ps[t := p]) == true && AllArmed(alloc.slots, attached) == true
    {
      SlotEnds(alloc.regions, t);
      p := NewPatch(code, target, t, cb, sources, moved, detour);
      ghost var slots := alloc.slots;
      NewSlot(code, target, t, cb, sources, moved, detour, slots(t), ps, alloc.regions);
      alloc.Write(t, NewTrampoline(code, target, t, cb, moved, detour, alloc.slots(t)));
      AddPatch(code, original, ps, attached, t, p);
      MoreDescribed(slots, alloc.slots, ps, attached, t, p);
    }

    /** Notes the operation, and the new patch. */
    method Push(o: Operation, ghost p: Patch)
      requires !o.isRemove && o.trampoline !in ps && o.target == p.target && active
      requires alloc.Valid() && alloc.live == ps.Keys + {o.trampoline}
      requires IsImage(code, original, ps[o.trampoline := p], attached)
      requires AllDescribed(alloc.slots, ps[o.trampoline := p]) && AllArmed(alloc.slots, attached)
      requires Pending()
      modifies `ps, `ops
      ensures Valid() == true && ops == [o] + old(ops) && ps == old(ps)[o.trampoline := p]
    {
      ghost var more := ps[o.trampoline := p];
      assert more.Keys == ps.Keys + {o.trampoline};
      PushInsert(o, ops, ps, attached, p);
      ps := more;
      ops := [o] + ops;
      assert Core() == true && Pending() == true;
    }

    /** The trampoline of a call that failed is free again. */
    method Unwind(t: Address)
      requires Filling(t) == true && Pending() == true
      modifies alloc`pFree, alloc`slots, alloc`chain, alloc`live
      ensures Valid() == true
    {
      ghost var slots := alloc.slots;
      alloc.Free(t);
      SlotsKept(slots, alloc.slots, ps, attached);
    }

    /** There is a trampoline to be had for the code at a target. */
    ghost predicate HasPlace(target: Address, region: Option<Address>)
      reads `code, alloc
      requires region.Some? ==> IsRegion(region.value)
    {
      HasSlot(alloc.regions, alloc.pFree, region, Bounds(code, target))
    }

    /** Hands out a slot within the bounds of the code at a target. */
    method TakeSlot(target: Address, region: Option<Address>) returns (t: Option<Address>)
      requires Valid() == true && (region.Some? ==> IsRegion(region.value) && region.value !in alloc.regions)
      modifies alloc
      ensures t.Some? <==> old(HasPlace(target, region))
      ensures t.None? ==> Valid() == true
      ensures t.Some? ==> Filling(t.value) == true && Pending() == true
      ensures t.Some? ==> Within(t.value, Bounds(code, target)) && Belongs(alloc.regions, t.value)
      ensures alloc.regions == old(alloc.regions) ||
              (region.Some? && alloc.regions == [region.value] + old(alloc.regions))
    {
      ghost var slots := alloc.slots;
      t := alloc.Alloc(code, target, region);
      SlotsKept(slots, alloc.slots, ps, attached);
    }

    /** A trampoline for the code at a target. */
    method HandOut(target: Address, region: Option<Address>) returns (t: Option<Address>)
      requires Valid() == true && (region.Some? ==> IsRegion(region.value) && region.value !in alloc.regions)
      requires Movable(code, target, ps, alloc.regions, region) == true
      modifies alloc
      ensures t.Some? <==> old(HasPlace(target, region))
      ensures t.None? ==> Valid() == true
      ensures t.Some? ==> Filling(t.value) == true && Pending() == true
      ensures t.Some? ==> IsPlace(code, target, t.value, ps, alloc.regions) == true
    {
      ghost var regions := alloc.regions;
      t := TakeSlot(target, region);
      if t.Some? {
        PlaceIs(code, target, ps, regions, alloc.regions, region, t.value);
      }
    }

    /** The code at a target copied to a trampoline, and how much of it there is. */
    method CopyCode(target: Address, t: Address) returns (cb: nat, moved: seq<Byte>)
      requires IsPlace(code, target, t, ps, alloc.regions) == true
      ensures cb == ReplacedSize(code, target) <= CODE_SIZE - SIZE_OF_JMP
      ensures SIZE_OF_JMP <= cb ==>
                && Fillable(code, target, t, cb, moved, ps, alloc.regions) == true
                && IsCopied(code, target, t, cb, Instructions(code, target), moved) == true
    {
      cb, moved := CopyTarget(TextAt(code, target), target, t);
      TargetFits(TextAt(code, target));
      if SIZE_OF_JMP <= cb {
        CopiedFills(code, target, t, cb, moved, ps, alloc.regions);
      }
    }

    /** Fills the trampoline in, unless something is wrong with the code. */
    method CopyAndFill(o: Operation, detour: Address, protect: bool) returns (r: Status)
      requires Filling(o.trampoline) == true && Pending() == true && active && !o.isRemove
      requires IsPlace(code, o.target, o.trampoline, ps, alloc.regions) == true
      modifies `ps, `ops, alloc`slots
      ensures IsOutcome(r, true, ReplacedSize(code, o.target), protect)
      ensures r != NoError ==> Filling(o.trampoline) == true && Pending() == true && ops == old(ops) && ps == old(ps)
      ensures r == NoError ==> Valid() == true
      ensures r == NoError ==>
                Noted(old(ops), ops, old(ps), ps, o.pointer, o.target, Instructions(code, o.target), detour) == true
    {
      var cb, moved := CopyCode(o.target, o.trampoline);
      if cb < SIZE_OF_JMP {
        return InvalidBlock;
      }
      if cb > CODE_SIZE - SIZE_OF_JMP {
        return InvalidHandle;
      }
      if !protect {
        return AccessDenied;
      }
      Fill(o, cb, Instructions(code, o.target), moved, detour);
      return NoError;
    }

    /** The part of DetourAttachEx that may fail: a trampoline is handed out and filled in. */
    method HandOutAndFill(pointer: Address, target: Address, detour: Address, region: Option<Address>, protect: bool)
      returns (t: Option<Address>, r: Status)
      requires Valid() == true && active && (region.Some? ==> IsRegion(region.value) && region.value !in alloc.regions)
      requires Movable(code, target, ps, alloc.regions, region) == true
      modifies `ps, `ops, alloc
      ensures IsOutcome(r, old(HasPlace(target, region)), ReplacedSize(code, target), protect) == true
      ensures r != NoError ==> ops == old(ops) && ps == old(ps)
      ensures t.None? ==> Valid() == true && r == NotEnoughMemory
      ensures t.Some? && r != NoError ==> Filling(t.value) == true && Pending() == true
      ensures r == NoError ==> Valid() == true
      ensures r == NoError ==>
                Noted(old(ops), ops, old(ps), ps, pointer, target, Instructions(code, target), detour) == true
    {
      t := HandOut(target, region);
      if t.None? {
        return None, NotEnoughMemory;
      }
      r := CopyAndFill(Operation(false, pointer, target, t.value), detour, protect);
    }

    /** And if it fails, the trampoline is free again. */
    method TryAttach(pointer: Address, target: Address, detour: Address, region: Option<Address>, protect: bool)
      returns (r: Status)
      requires Valid() == true && active && (region.Some? ==> IsRegion(region.value) && region.value !in alloc.regions)
      requires Movable(code, target, ps, alloc.regions, region) == true
      modifies `ps, `ops, alloc
      ensures Valid() == true
      ensures IsOutcome(r, old(HasPlace(target, region)), ReplacedSize(code, target), protect) == true
      ensures r != NoError ==> ops == old(ops) && ps == old(ps)
      ensures r == NoError ==>
                Noted(old(ops), ops, old(ps), ps, pointer, target, Instructions(code, target), detour) == true
    {
      var t;
      t, r := HandOutAndFill(pointer, target, detour, region, protect);
      if t.Some? && r != NoError {
        Unwind(t.value);
      }
    }

    /** The rest of DetourAttachEx, once the target is known. */
    method AttachAt(pointer: Address, target: Address, detour: Address, region: Option<Address>, protect: bool)
      returns (r: Status)
      requires Valid() == true && active
      requires region.Some? ==> IsRegion(region.value) && region.value !in alloc.regions
      requires Movable(code, target, ps, alloc.regions, region) == true
      modifies `error, `culprit, `ps, `ops, alloc
      ensures Valid() == true
      ensures IsOutcome(r, old(HasPlace(target, region)), ReplacedSize(code, target), protect) == true
      ensures r != NoError ==> ops == old(ops) && ps == old(ps) && culprit == Some(pointer)
      ensures r != NoError ==> error == if r == InvalidBlock && ignoreTooSmall then old(error) else r
      ensures r == NoError ==> error == old(error) && culprit == old(culprit)
      ensures r == NoError ==>
                Noted(old(ops), ops, old(ps), ps, pointer, target, Instructions(code, target), detour) == true
    {
      r := TryAttach(pointer, target, detour, region, protect);
      if r != NoError {
        Fail(r, pointer);
      }
    }

    /** Whether a call goes on to its target: a transaction is pending, no call of it has failed, and the
        pointer and the detour are there. */
    predicate Proceeds(pointer: Address, detour: Address)
      reads `active, `error, `pointers
    {
      active && error == NoError && detour != NULL && pointers(pointer) != NULL
    }

    /** Why a call does not, by the first checks of DetourAttachEx. */
    function AttachRefusal(pointer: Address, detour: Address): (r: Status)
      reads `active, `error, `pointers
      ensures r == NoError <==> Proceeds(pointer, detour)
    {
      if detour == NULL then InvalidParameter else PendingRefusal(pointer)
    }

    /** And by those of DetourDetach, where the pending transaction comes first. */
    function DetachRefusal(pointer: Address, detour: Address): (r: Status)
      reads `active, `error, `pointers
      ensures r == NoError <==> Proceeds(pointer, detour)
    {
      if active && error == NoError && detour == NULL then InvalidParameter else PendingRefusal(pointer)
    }

    function PendingRefusal(pointer: Address): Status
      reads `active, `error, `pointers
    {
      if !active then InvalidOperation
      else if error != NoError then error
      else if pointers(pointer) == NULL then InvalidHandle
      else NoError
    }

    /** The end of those checks: a missing pointer is remembered. */
    method Refuse(r: Status, pointer: Address)
      requires Valid() == true
      modifies `error, `culprit
      ensures Valid() == true
      ensures if r == InvalidHandle && old(active && error == NoError) then
                error == InvalidHandle && culprit == Some(pointer)
              else error == old(error) && culprit == old(culprit)
    {
      if active && error == NoError && r == InvalidHandle {
        error, culprit := InvalidHandle, Some(pointer);
      }
    }

    /** The part of DetourAttachEx behind the first checks: nothing is done for a detour that leads to its target. */
    method AttachCode(pointer: Address, target: Address, detour: Address, region: Option<Address>, protect: bool)
      returns (r: Status)
      requires Valid() == true && active && error == NoError
      requires region.Some? ==> IsRegion(region.value) && region.value !in alloc.regions
      requires Movable(code, target, ps, alloc.regions, region) == true
      modifies `error, `culprit, `ps, `ops, alloc
      ensures Valid() == true
      ensures detour == target ==> r == NoError
      ensures r == NoError ==> error == NoError
      ensures detour != target ==> IsOutcome(r, old(HasPlace(target, region)), ReplacedSize(code, target), protect)
      ensures r != NoError || detour == target ==> ops == old(ops) && ps == old(ps)
      ensures r == NoError && detour != target ==>
                Noted(old(ops), ops, old(ps), ps, pointer, target, Instructions(code, target), detour) == true
      ensures r != NoError ==> error == if r == InvalidBlock && ignoreTooSmall then NoError else r
    {
      if detour == target {
        culprit := Some(pointer);
        return NoError;
      }
      r := AttachAt(pointer, target, detour, region, protect);
    }

    /** DetourAttachEx. `skip` is DetourCodeFromPointer, `region` is what a search for a new region would find, and
        `protect` says whether the target can be made writable. */
    method Attach(pointer: Address, detour: Address, skip: Address -> Address, region: Option<Address>, protect: bool)
      returns (r: Status)
      requires Valid() == true
      requires region.Some? ==> IsRegion(region.value) && region.value !in alloc.regions
      requires Proceeds(pointer, detour) ==> Movable(code, skip(pointers(pointer)), ps, alloc.regions, region) == true
      modifies `error, `culprit, `ps, `ops, alloc
      ensures Valid() == true
      ensures detour == NULL ==> r == InvalidParameter
      ensures detour != NULL && !active ==> r == InvalidOperation
      ensures detour != NULL && active && old(error) != NoError ==> r == old(error)
      ensures detour != NULL && active && old(error) == NoError && pointers(pointer) == NULL ==> r == InvalidHandle
      ensures old(Proceeds(pointer, detour)) && skip(detour) == skip(pointers(pointer)) ==> r == NoError
      ensures r == NoError ==> error == NoError
      ensures old(Proceeds(pointer, detour)) && skip(detour) != skip(pointers(pointer)) ==>
                var target := skip(pointers(pointer));
                IsOutcome(r, old(HasPlace(target, region)), ReplacedSize(code, target), protect)
      ensures r != NoError || skip(detour) == skip(pointers(pointer)) ==> ops == old(ops) && ps == old(ps)
      ensures old(Proceeds(pointer, detour)) && r != NoError ==>
                error == if r == InvalidBlock && ignoreTooSmall then NoError else r
      ensures old(Proceeds(pointer, detour)) && r == NoError && skip(detour) != skip(pointers(pointer)) ==>
                var target := skip(pointers(pointer));
                Noted(old(ops), ops, old(ps), ps, pointer, target, Instructions(code, target), skip(detour)) == true
    {
      r := AttachRefusal(pointer, detour);
      if r != NoError {
        Refuse(r, pointer);
      } else {
        var target, other := skip(pointers(pointer)), skip(detour);
        r := AttachCode(pointer, target, other, region, protect);
      }
    }

    /** DetourDetach, of a detour that is in place and not yet to be taken out. */
    method Detach(pointer: Address, detour: Address, skip: Address -> Address, protect: bool) returns (r: Status)
      requires Valid() == true
      requires Proceeds(pointer, detour) ==>
                 skip(pointers(pointer)) in attached - Removes(ops) && skip(pointers(pointer)) in ps
      modifies `error, `culprit, `ops
      ensures Valid() == true
      ensures !active ==> r == InvalidOperation
      ensures active && old(error) != NoError ==> r == old(error)
      ensures active && old(error) == NoError && detour == NULL ==> r == InvalidParameter
      ensures active && old(error) == NoError && detour != NULL && pointers(pointer) == NULL ==> r == InvalidHandle
      ensures r != NoError ==> ops == old(ops)
      ensures old(Proceeds(pointer, detour)) && r != NoError ==>
                && culprit == Some(pointer)
                && error == if r == InvalidBlock && ignoreTooSmall then NoError else r
      ensures old(Proceeds(pointer, detour)) ==>
                var same := ps[skip(pointers(pointer))].detour == skip(detour);
                && (r == NoError <==> same && protect) && (r == InvalidBlock <==> !same)
                && (r == AccessDenied <==> same && !protect)
      ensures r == NoError ==>
                && error == NoError && culprit == old(culprit)
                && var t := skip(pointers(pointer));
                   ops == [Operation(true, pointer, ps[t].target, t)] + old(ops)
    {
      r := DetachRefusal(pointer, detour);
      if r != NoError {
        Refuse(r, pointer);
        return;
      }
      r := DetachFrom(pointer, skip(pointers(pointer)), skip(detour), protect);
    }

    method DetachFrom(pointer: Address, t: Address, detour: Address, protect: bool) returns (r: Status)
      requires Valid() == true && active && t in attached - Removes(ops) && t in ps
      modifies `error, `culprit, `ops
      ensures Valid() == true
      ensures r != NoError ==> ops == old(ops) && culprit == Some(pointer)
      ensures r != NoError ==> error == if r == InvalidBlock && ignoreTooSmall then old(error) else r
      ensures r == NoError ==> error == old(error) && culprit == old(culprit)
      ensures r == NoError ==> ops == [Operation(true, pointer, ps[t].target, t)] + old(ops)
      ensures r == if ps[t].detour != detour then InvalidBlock else if !protect then AccessDenied else NoError
    {
      assert Describes(alloc.slots(t), t, ps[t]);
      var v := alloc.slots(t);
      if v.cbRestore == 0 || v.cbRestore > CODE_SIZE || v.pbDetour != detour {
        r := InvalidBlock;
        Fail(r, pointer);
      } else if !protect {
        r := AccessDenied;
        Fail(r, pointer);
      } else {
        r := NoError;
        PushDetach(Operation(true, pointer, alloc.slots(t).pbRemain - alloc.slots(t).cbRestore, t));
      }
    }

    /** Notes that a detour is to be taken out. */
    method PushDetach(o: Operation)
      requires Valid() == true && active && o.isRemove && o.trampoline in attached - Removes(ops)
      requires o.trampoline in ps && o.target == ps[o.trampoline].target
      modifies `ops
      ensures Valid() == true && ops == [o] + old(ops)
    {
      PushRemove(o, ops, ps, attached);
      ops := [o] + ops;
      assert Core() == true && Pending() == true;
    }
  }

  // ---- What every run of these calls keeps ----

  /** Whenever no detour is in place, each byte of code is what it was before the first call. */
  lemma CodeIsRestored(x: Transaction, a: Address)
    requires x.Valid() && x.attached == {}
    ensures x.code(a) == x.original(a)
  {
    NothingAttached(x.code, x.original, x.ps, a);
  }

  /** The bytes that no detour in place covers are always those they were. */
  lemma OtherCodeIsOriginal(x: Transaction, a: Address)
    requires x.Valid() && forall t | t in x.attached :: t in x.ps && !Covers(x.ps[t], a)
    ensures x.code(a) == x.original(a)
  {
    assert ByteRight(x.code(a), a, x.original, x.ps, x.attached);
  }

  /** The code of a detour in place jumps to its trampoline, which jumps through its pointer to the detour. */
  lemma DetourIsReached(x: Transaction, t: Address)
    requires x.Valid() && t in x.attached
    ensures t in x.ps && t + TRAMPOLINE_SIZE < TWO64
    ensures x.code(x.ps[t].target) == 0xe9 && x.ps[t].target + SIZE_OF_JMP < TWO64
    ensures ImmediateTarget(x.ps[t].target, BytesAt(x.code, x.ps[t].target, SIZE_OF_JMP)) == t + RB_CODE_IN
    ensures |x.alloc.slots(t).rbCodeIn| == 6
    ensures IndirectPointer(t + RB_CODE_IN, x.alloc.slots(t).rbCodeIn) == t + PB_DETOUR
    ensures x.alloc.slots(t).pbDetour == x.ps[t].detour
  {
    ReachDetour(x.code, x.original, x.ps, x.attached, x.alloc.slots, t);
  }

  /** The code that a detour replaces, or will replace, is saved as it was. */
  lemma SavedIsOriginal(x: Transaction, t: Address, a: Address)
    requires x.Valid() && t in x.ps && Covers(x.ps[t], a)
    ensures x.ps[t].restore[a - x.ps[t].target] == x.original(a)
  {
    assert Restores(x.ps[t], x.original);
  }

  /** The original function stays callable: through the moved code of the trampoline to the code that follows. */
  lemma OriginalIsReached(x: Transaction, t: Address)
    requires x.Valid() && t in x.ps
    ensures Continues(x.alloc.slots(t), t, x.ps[t])
  {
    assert AllDescribed(x.alloc.slots, x.ps);
    assert Describes(x.alloc.slots(t), t, x.ps[t]);
    ReachRemain(x.alloc.slots(t), t, x.ps[t]);
  }

  /** The instructions that a trampoline was made of, at the target and in the trampoline. */
  ghost function MovedBlock(x: Transaction, t: Address): Block
    reads x`ps
    requires t in x.ps
  {
    Block(X64(), x.ps[t].sources, x.ps[t].target, t)
  }

  /** They are the original code of the target, one behind the other; what else is replaced there is padding. */
  lemma MovedIsOriginal(x: Transaction, t: Address)
    requires x.Valid() && t in x.ps
    ensures IsBlock(MovedBlock(x, t)) && IsReplaced(x.ps[t].sources, x.ps[t].restore)
    ensures forall k | 0 <= k < |x.ps[t].sources| :: WasThere(x.ps[t], x.original, k)
  {
    MovedIs(x.alloc.slots, x.ps, t);
    assert Restores(x.ps[t], x.original);
    SourcesWereThere(x.alloc.slots, x.ps, t, x.original);
  }

  /** By the manuals each of them is one instruction, where the decoder keeps to them, and the padding does nothing. */
  lemma MovedByManual(x: Transaction, t: Address)
    requires x.Valid() && t in x.ps
    ensures forall k | 0 <= k < |x.ps[t].sources| && X64Format.IsRegular(x.ps[t].sources[k]) ::
              X64Format.IsFormatted(x.ps[t].sources[k])
    ensures |Joined(x.ps[t].sources)| <= |x.ps[t].restore|
    ensures X64Padding.IsFilled(x.ps[t].restore[|Joined(x.ps[t].sources)|..])
  {
    MovedIsOriginal(x, t);
    X64Padding.PaddingIsFilled(x.ps[t].restore[|Joined(x.ps[t].sources)|..]);
    forall k | 0 <= k < |x.ps[t].sources| && X64Format.IsRegular(x.ps[t].sources[k])
      ensures X64Format.IsFormatted(x.ps[t].sources[k])
    {
      X64Format.InstructionIff(x.ps[t].sources[k]);
    }
  }

  /** The original function stays callable: the trampoline begins with code that does what its first instructions did,
      each denoting what it denoted, exactly if their displacements are such that their fields can hold them. */
  lemma MovedCodeAgrees(x: Transaction, t: Address)
    requires x.Valid() && t in x.ps
    ensures var b, v := MovedBlock(x, t), x.alloc.slots(t).rbCode;
            && IsBlock(b)
            && ((forall k | 0 <= k < |b.sources| :: Does(b, v, k)) <==>
                (forall k | 0 <= k < |b.sources| :: CopyReaches(b, k)))
            && ((forall k | 0 <= k < |b.sources| :: CopyReaches(b, k)) ==>
                  AllJoin(b, 0, |b.sources|) && Pos(b, |b.sources|) == |x.ps[t].moved|)
  {
    MovedIs(x.alloc.slots, x.ps, t);
    var b := MovedBlock(x, t);
    AllDo(b, x.alloc.slots(t).rbCode);
    if forall k | 0 <= k < |b.sources| :: CopyReaches(b, k) {
      ReachAllJoin(b);
    }
  }

  /** The trampolines in use never overlap. */
  lemma TrampolinesAreApart(x: Transaction, t: Address, u: Address)
    requires x.Valid() && t in x.ps && u in x.ps && t != u
    ensures t + TRAMPOLINE_SIZE <= u || u + TRAMPOLINE_SIZE <= t
  {
    LiveAreApart(x.alloc.regions, x.alloc.live, t, u);
  }
}
