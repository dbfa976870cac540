/** A detour put in place and taken out again. */
module DetourRoundTrip {
  import opened Prelude
  import opened Addresses
  import opened DetourJump
  import opened Trampolines
  import opened DetourPatch
  import opened Detours
  import opened DetourTransaction

  /** The code is fixed by the detours in place and their patches. */
  lemma SameImage(a: Memory, b: Memory, original: Memory, ps: Patches, qs: Patches, attached: set<Address>, at: Address)
    requires IsImage(a, original, ps, attached) && IsImage(b, original, qs, attached)
    requires forall t | t in attached :: t in ps && t in qs && ps[t] == qs[t]
    ensures b(at) == a(at)
  {
    assert ByteRight(a(at), at, original, ps, attached) && ByteRight(b(at), at, original, qs, attached);
  }

  /** No byte of code and no pointer differs. */
  ghost predicate SameWorld(a: Memory, b: Memory, p: Address -> Address, q: Address -> Address) {
    && (forall at: Address {:trigger b(at)} :: b(at) == a(at))
    && (forall at: Address {:trigger q(at)} :: q(at) == p(at))
  }

  /** Only this pointer differs. */
  ghost predicate OnlyPointer(p: Address -> Address, q: Address -> Address, pointer: Address) {
    forall at: Address {:trigger q(at)} :: at != pointer ==> q(at) == p(at)
  }

  /** What one operation leaves. */
  ghost predicate Left(was: World, w: World, o: Operation, ps: Patches) {
    && o.trampoline in ps && OnlyPointer(was.pointers, w.pointers, o.pointer)
    && w.pointers(o.pointer) == (if o.isRemove then ps[o.trampoline].target else o.trampoline)
    && w.attached == if o.isRemove then was.attached - {o.trampoline} else was.attached + {o.trampoline}
  }

  lemma OneApplied(was: World, w: World, o: Operation, ps: Patches)
    requires AreIn([o], ps) && Repointed(was.pointers, w.pointers, [o], ps) && w.attached == After(was.attached, [o])
    ensures Left(was, w, o, ps) == true
  {
    assert IsLast([o], 0) && [o][0] == o;
    assert [o][..0] == [];
  }

  lemma NoneApplied(was: World, w: World, ps: Patches)
    requires AreIn([], ps) && Repointed(was.pointers, w.pointers, [], ps) && w.attached == After(was.attached, [])
    requires OnlyTargets(was.code, w.code, [], ps)
    ensures SameWorld(was.code, w.code, was.pointers, w.pointers) && w.attached == was.attached
  {
  }

  /** Commits the one operation that is pending. */
  method CommitOne(x: Transaction, ghost o: Operation)
    requires x.Valid() == true && x.active && x.error == NoError && x.ops == [o]
    modifies x, x.alloc
    ensures x.Valid() == true && !x.active && x.original == old(x.original) && Unchanged(old(x.ps), x.ps) == true
    ensures Left(old(x.TheWorld()), x.TheWorld(), o, old(x.ps)) == true && x.ps.Keys == x.attached
  {
    ghost var was, ps := x.TheWorld(), x.ps;
    var _ := x.Commit();
    OneApplied(was, x.TheWorld(), o, ps);
  }

  /** Commits, or aborts, with no operation pending. */
  method CommitNone(x: Transaction)
    requires x.Valid() == true && x.active && x.ops == []
    modifies x, x.alloc
    ensures x.Valid() == true && !x.active && x.original == old(x.original) && Unchanged(old(x.ps), x.ps) == true
    ensures SameWorld(old(x.code), x.code, old(x.pointers), x.pointers) == true && x.attached == old(x.attached)
    ensures x.ps.Keys == x.attached
  {
    ghost var was, ps := x.TheWorld(), x.ps;
    var r := x.Commit();
    if r == NoError {
      NoneApplied(was, x.TheWorld(), ps);
    }
  }

  /** One operation is pending, which puts a new detour in place. */
  ghost predicate IsPut(ops: seq<Operation>, had: Patches, ps: Patches, pointer: Address, target: Address,
                        detour: Address) {
    && |ops| == 1
    && var t := ops[0].trampoline;
       && ops == [Operation(false, pointer, target, t)]
       && t !in had && t in ps && Unchanged(had, ps) && ps.Keys == had.Keys + {t}
       && ps[t].target == target && ps[t].detour == detour
  }

  lemma NotedIsPut(ops: seq<Operation>, had: Patches, ps: Patches, pointer: Address, target: Address,
                   sources: seq<seq<Byte>>, detour: Address, attached: set<Address>)
    requires Noted([], ops, had, ps, pointer, target, sources, detour) && AllFit(ops, ps, attached)
    ensures IsPut(ops, had, ps, pointer, target, detour)
  {
    assert ops == [ops[0]] + ops[1..] && Fits(ops[0], ps, attached);
  }

  /** Begins a transaction and attaches to a function. */
  method BeginAttach(x: Transaction, pointer: Address, detour: Address, skip: Address -> Address,
                     region: Option<Address>, protect: bool)
    returns (r: Status)
    requires x.Valid() == true && !x.active && detour != NULL && x.pointers(pointer) != NULL
    requires region.Some? ==> IsRegion(region.value) && region.value !in x.alloc.regions
    requires Movable(x.code, skip(x.pointers(pointer)), x.ps, x.alloc.regions, region) == true
    requires skip(detour) != skip(x.pointers(pointer))
    modifies x`active, x`error, x`culprit, x`ops, x`ps, x.alloc
    ensures x.Valid() == true && x.active
    ensures IsOutcome(r, old(x.HasPlace(skip(x.pointers(pointer)), region)),
                      ReplacedSize(x.code, skip(x.pointers(pointer))), protect)
    ensures r == NoError ==>
              x.error == NoError &&
              IsPut(x.ops, old(x.ps), x.ps, pointer, skip(x.pointers(pointer)), skip(detour)) == true
    ensures r != NoError ==> x.ops == [] && x.ps == old(x.ps)
  {
    var _ := x.Begin(NoError);
    ghost var ps, target := x.ps, skip(x.pointers(pointer));
    r := x.Attach(pointer, detour, skip, region, protect);
    if r == NoError {
      NotedIsPut(x.ops, ps, x.ps, pointer, target, Instructions(x.code, target), skip(detour), x.attached);
    }
  }

  /** A detour more is in place, from the target to the detour, and the pointer leads to its trampoline. */
  ghost predicate IsIn(was: World, w: World, had: Patches, ps: Patches, pointer: Address, target: Address,
                       detour: Address) {
    var t := w.pointers(pointer);
    && t !in had && w.attached == was.attached + {t} && t in ps && ps[t].target == target && ps[t].detour == detour
    && OnlyPointer(was.pointers, w.pointers, pointer)
  }

  lemma PutLeaves(was: World, w: World, ops: seq<Operation>, had: Patches, mid: Patches, ps: Patches, pointer: Address,
                  target: Address, detour: Address)
    requires IsPut(ops, had, mid, pointer, target, detour) && Left(was, w, ops[0], mid)
    requires Unchanged(mid, ps) && ps.Keys == w.attached
    ensures IsIn(was, w, had, ps, pointer, target, detour) == true && Unchanged(had, ps) == true
  {
  }

  /** Commits the insertion that is pending. */
  method CommitPut(x: Transaction, ghost had: Patches, ghost pointer: Address, ghost target: Address,
                   ghost detour: Address)
    requires x.Valid() == true && x.active && x.error == NoError
    requires IsPut(x.ops, had, x.ps, pointer, target, detour) == true
    modifies x, x.alloc
    ensures x.Valid() == true && !x.active && x.original == old(x.original) && x.ps.Keys == x.attached
    ensures IsIn(old(x.TheWorld()), x.TheWorld(), had, x.ps, pointer, target, detour) == true
    ensures Unchanged(had, x.ps) == true
  {
    ghost var was, ops, mid := x.TheWorld(), x.ops, x.ps;
    CommitOne(x, x.ops[0]);
    PutLeaves(was, x.TheWorld(), ops, had, mid, x.ps, pointer, target, detour);
  }

  /** Puts a detour in place, in a transaction of its own. */
  method PutIn(x: Transaction, pointer: Address, detour: Address, skip: Address -> Address, region: Option<Address>,
               protect: bool)
    returns (r: Status)
    requires x.Valid() == true && !x.active && detour != NULL && x.pointers(pointer) != NULL
    requires region.Some? ==> IsRegion(region.value) && region.value !in x.alloc.regions
    requires Movable(x.code, skip(x.pointers(pointer)), x.ps, x.alloc.regions, region) == true
    requires skip(detour) != skip(x.pointers(pointer))
    modifies x, x.alloc
    ensures x.Valid() == true && !x.active && x.original == old(x.original) && Unchanged(old(x.ps), x.ps) == true
    ensures x.ps.Keys == x.attached
    ensures IsOutcome(r, old(x.HasPlace(skip(x.pointers(pointer)), region)),
                      ReplacedSize(old(x.code), skip(old(x.pointers)(pointer))), protect)
    ensures r == NoError ==>
              IsIn(old(x.TheWorld()), x.TheWorld(), old(x.ps), x.ps, pointer, skip(old(x.pointers)(pointer)),
                   skip(detour)) == true
    ensures r != NoError ==>
              && SameWorld(old(x.code), x.code, old(x.pointers), x.pointers) == true
              && x.attached == old(x.attached)
  {
    ghost var had := x.ps;
    r := BeginAttach(x, pointer, detour, skip, region, protect);
    if r == NoError {
      CommitPut(x, had, pointer, skip(x.pointers(pointer)), skip(detour));
    } else {
      CommitNone(x);
    }
  }

  /** Begins a transaction and detaches. */
  method BeginDetach(x: Transaction, pointer: Address, detour: Address, skip: Address -> Address, protect: bool)
    returns (r: Status)
    requires x.Valid() == true && !x.active && detour != NULL && x.pointers(pointer) != NULL
    requires skip(x.pointers(pointer)) in x.attached && skip(x.pointers(pointer)) in x.ps
    modifies x`active, x`error, x`culprit, x`ops
    ensures x.Valid() == true && x.active
    ensures r == NoError <==> x.ps[skip(x.pointers(pointer))].detour == skip(detour) && protect
    ensures r == NoError ==>
              var t := skip(x.pointers(pointer));
              x.error == NoError && x.ops == [Operation(true, pointer, x.ps[t].target, t)]
    ensures r != NoError ==> x.ops == []
  {
    var _ := x.Begin(NoError);
    NoRemoves();
    r := x.Detach(pointer, detour, skip, protect);
  }

  lemma NoRemoves()
    ensures Removes([]) == {}
  {
  }

  /** Takes a detour out, in a transaction of its own. */
  method TakeOut(x: Transaction, pointer: Address, detour: Address, skip: Address -> Address, protect: bool)
    returns (r: Status)
    requires x.Valid() == true && !x.active && detour != NULL && x.pointers(pointer) != NULL
    requires skip(x.pointers(pointer)) in x.attached && skip(x.pointers(pointer)) in x.ps
    modifies x, x.alloc
    ensures x.Valid() == true && !x.active && x.original == old(x.original) && Unchanged(old(x.ps), x.ps) == true
    ensures x.ps.Keys == x.attached
    ensures r == NoError <==> old(x.ps)[skip(old(x.pointers)(pointer))].detour == skip(detour) && protect
    ensures r == NoError ==>
              var t := skip(old(x.pointers)(pointer));
              && x.attached == old(x.attached) - {t} && x.pointers(pointer) == old(x.ps)[t].target
              && OnlyPointer(old(x.pointers), x.pointers, pointer) == true
    ensures r != NoError ==>
              && SameWorld(old(x.code), x.code, old(x.pointers), x.pointers) == true
              && x.attached == old(x.attached)
  {
    r := BeginDetach(x, pointer, detour, skip, protect);
    if r == NoError {
      CommitOne(x, x.ops[0]);
    } else {
      CommitNone(x);
    }
  }

  lemma ImageOf(x: Transaction)
    requires x.Valid()
    ensures IsImage(x.code, x.original, x.ps, x.attached) == true
  {
  }

  lemma IsNotNull(x: Transaction, t: Address)
    requires x.Valid() && t in x.ps
    ensures t != NULL
  {
    assert Belongs(x.alloc.regions, t);
  }

  /** A detour more and the same detour less. */
  lemma CodeBack(a: Memory, b: Memory, original: Memory, ps: Patches, mid: Patches, qs: Patches,
                 attached: set<Address>, now: set<Address>, t: Address)
    requires IsImage(a, original, ps, attached) == true && IsImage(b, original, qs, now) == true
    requires Unchanged(ps, mid) == true && Unchanged(mid, qs) == true
    requires mid.Keys == attached + {t} && t !in ps && qs.Keys == now == (attached + {t}) - {t}
    ensures now == attached && forall at: Address {:trigger b(at)} :: b(at) == a(at)
  {
    assert t !in attached;
    forall u | u in attached
      ensures u in ps && u in qs && ps[u] == qs[u]
    {
      assert u in ps && u in mid && u in qs;
    }
    forall at: Address
      ensures b(at) == a(at)
    {
      SameImage(a, b, original, ps, qs, attached, at);
    }
  }

  /** Attach, commit, detach, commit, if a pointer to the trampoline is not followed any further: every byte of code is
      what it was, the detours in place are those that were, and the pointer leads where it led, past the jumps that
      are skipped: it has its first value again exactly if there were none to skip. */
  method InAndOut(x: Transaction, pointer: Address, detour: Address, skip: Address -> Address, region: Option<Address>,
                  protect: bool)
    returns (r: Status, back: bool)
    requires x.Valid() == true && !x.active && detour != NULL && x.pointers(pointer) != NULL
    requires region.Some? ==> IsRegion(region.value) && region.value !in x.alloc.regions
    requires Movable(x.code, skip(x.pointers(pointer)), x.ps, x.alloc.regions, region) == true
    requires skip(detour) != skip(x.pointers(pointer))
    modifies x, x.alloc
    ensures x.Valid() == true && !x.active
    ensures IsOutcome(r, old(x.HasPlace(skip(x.pointers(pointer)), region)),
                      ReplacedSize(old(x.code), skip(old(x.pointers)(pointer))), protect)
    ensures r != NoError ==>
              && !back && x.attached == old(x.attached)
              && SameWorld(old(x.code), x.code, old(x.pointers), x.pointers) == true
    ensures back ==>
              && x.attached == old(x.attached)
              && (forall at: Address {:trigger x.code(at)} :: x.code(at) == old(x.code)(at))
              && OnlyPointer(old(x.pointers), x.pointers, pointer) == true
              && x.pointers(pointer) == skip(old(x.pointers)(pointer))
    ensures r == NoError && !back ==> skip(x.pointers(pointer)) != x.pointers(pointer)
  {
    ghost var was, original, ps := x.TheWorld(), x.original, x.ps;
    ImageOf(x);
    r := PutIn(x, pointer, detour, skip, region, protect);
    back := false;
    if r == NoError && skip(x.pointers(pointer)) == x.pointers(pointer) {
      ghost var mid, t := x.ps, x.pointers(pointer);
      back := true;
      IsNotNull(x, t);
      var _ := TakeOut(x, pointer, detour, skip, protect);
      ImageOf(x);
      CodeBack(was.code, x.code, original, ps, mid, x.ps, was.attached, x.attached, t);
    }
  }
}
