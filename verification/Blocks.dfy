/** Reference-counted blocks behind a cache: sqfs_md_cache, sqfs_data_cache, sqfs_block_dispose and
    sqfs_cache_destroy over an explicit heap of malloc'ed blocks. */
module Blocks {
  import opened Prelude
  import opened Image
  import opened SlotCache

  /** A pointer to a block. Handles are never reused, so a stale one cannot be mistaken. */
  type Handle = nat

  /** sqfs_block. */
  datatype Block = Block(data: seq<Byte>, refcount: nat)

  /** sqfs_block_cache_entry. */
  datatype Entry = Entry(block: Handle, dataSize: nat)

  type Heap = map<Handle, Block>

  // ---- References ----

  /** 1 if the slot's cached entry is block h. */
  ghost function SlotRef(s: Slot<Entry>, h: Handle): nat {
    if s.valid && s.entry.block == h then 1 else 0
  }

  /** How many slots hold block h. */
  ghost function SlotRefs(slots: seq<Slot<Entry>>, h: Handle): nat {
    if slots == [] then 0 else SlotRefs(slots[..|slots| - 1], h) + SlotRef(slots[|slots| - 1], h)
  }

  /** A block's reference count; a freed block has none. */
  ghost function Count(heap: Heap, h: Handle): nat {
    if h in heap then heap[h].refcount else 0
  }

  lemma {:induction false} SlotRefsUpdate(slots: seq<Slot<Entry>>, i: nat, s: Slot<Entry>, h: Handle)
    requires i < |slots|
    ensures SlotRefs(slots[i := s], h) + SlotRef(slots[i], h) == SlotRefs(slots, h) + SlotRef(s, h)
  {
    var init := slots[..|slots| - 1];
    if i < |init| {
      SlotRefsUpdate(init, i, s, h);
      assert slots[i := s][..|slots| - 1] == init[i := s];
    } else {
      assert slots[i := s][..|slots| - 1] == init;
    }
  }

  lemma {:induction false} SlotRefsHas(slots: seq<Slot<Entry>>, i: nat)
    requires i < |slots| && slots[i].valid
    ensures SlotRefs(slots, slots[i].entry.block) > 0
  {
    if i < |slots| - 1 {
      SlotRefsHas(slots[..|slots| - 1], i);
    }
  }

  lemma {:induction false} SlotRefsNone(slots: seq<Slot<Entry>>, h: Handle)
    requires forall i | 0 <= i < |slots| :: !slots[i].valid
    ensures SlotRefs(slots, h) == 0
  {
    if slots != [] {
      SlotRefsNone(slots[..|slots| - 1], h);
    }
  }

  // ---- The heap ----

  /** Every block's count is the number of slots that cache it plus the references given out, and a
      block without references is not in the heap. */
  ghost predicate Counted(heap: Heap, slots: seq<Slot<Entry>>, held: multiset<Handle>) {
    && (forall h | h in heap :: heap[h].refcount > 0)
    && (forall h: Handle :: Count(heap, h) == SlotRefs(slots, h) + held[h])
  }

  /** sqfs_block_ref. */
  function Ref(heap: Heap, h: Handle): Heap
    requires h in heap
  {
    heap[h := heap[h].(refcount := heap[h].refcount + 1)]
  }

  /** sqfs_block_dispose: drop a reference and free the block with the last one. */
  function Dispose(heap: Heap, h: Handle): Heap
    requires h in heap && heap[h].refcount > 0
  {
    if heap[h].refcount == 1 then heap - {h}
    else heap[h := heap[h].(refcount := heap[h].refcount - 1)]
  }

  /** Blocks that are live in `after` were live in `before` and still hold the same bytes. */
  ghost predicate Kept(before: Heap, after: Heap) {
    forall h | h in after :: h in before && after[h].data == before[h].data
  }

  /** References survive: each block in `refs` is live in both heaps with the same bytes. */
  ghost predicate Alive(refs: multiset<Handle>, before: Heap, after: Heap) {
    forall h | h in refs :: h in before && h in after && after[h].data == before[h].data
  }

  lemma HeldAlive(before: Heap, after: Heap, slots: seq<Slot<Entry>>, held: multiset<Handle>, refs: multiset<Handle>)
    requires Kept(before, after) && Counted(after, slots, held) && refs <= held
    ensures Alive(refs, before, after)
  {
    forall h | h in refs
      ensures h in after
    {
      assert Count(after, h) == SlotRefs(slots, h) + held[h] > 0;
    }
  }

  /** Evicting slot i drops exactly the reference the slot had. */
  lemma EvictCounted(heap: Heap, slots: seq<Slot<Entry>>, held: multiset<Handle>, i: nat, key: nat)
    requires Counted(heap, slots, held) && i < |slots| && slots[i].valid
    ensures slots[i].entry.block in heap
    ensures Counted(Dispose(heap, slots[i].entry.block), slots[i := Slot(false, key, slots[i].entry)], held)
  {
    var victim := slots[i].entry.block;
    SlotRefsHas(slots, i);
    assert Count(heap, victim) > 0;
    var heap', slots' := Dispose(heap, victim), slots[i := Slot(false, key, slots[i].entry)];
    forall h: Handle
      ensures Count(heap', h) == SlotRefs(slots', h) + held[h]
    {
      SlotRefsUpdate(slots, i, slots'[i], h);
      assert Count(heap, h) == SlotRefs(slots, h) + held[h];
    }
  }

  /** Taking a slot that holds nothing changes no count. */
  lemma ReuseCounted(heap: Heap, slots: seq<Slot<Entry>>, held: multiset<Handle>, i: nat, key: nat)
    requires Counted(heap, slots, held) && i < |slots| && !slots[i].valid
    ensures Counted(heap, slots[i := Slot(false, key, slots[i].entry)], held)
  {
    forall h: Handle
      ensures Count(heap, h) == SlotRefs(slots[i := Slot(false, key, slots[i].entry)], h) + held[h]
    {
      SlotRefsUpdate(slots, i, Slot(false, key, slots[i].entry), h);
    }
  }

  /** A new block with count one, put into a slot. */
  lemma FillCounted(heap: Heap, slots: seq<Slot<Entry>>, held: multiset<Handle>, i: nat, key: nat, e: Entry,
                    data: seq<Byte>)
    requires Counted(heap, slots, held) && i < |slots| && !slots[i].valid && e.block !in heap
    ensures Counted(heap[e.block := Block(data, 1)], slots[i := Slot(true, key, e)], held)
  {
    var heap', slots' := heap[e.block := Block(data, 1)], slots[i := Slot(true, key, e)];
    forall h: Handle
      ensures Count(heap', h) == SlotRefs(slots', h) + held[h]
    {
      SlotRefsUpdate(slots, i, slots'[i], h);
      assert Count(heap, h) == SlotRefs(slots, h) + held[h];
    }
  }

  lemma RefCounted(heap: Heap, slots: seq<Slot<Entry>>, held: multiset<Handle>, h: Handle)
    requires Counted(heap, slots, held) && h in heap
    ensures Counted(Ref(heap, h), slots, held + multiset{h})
  {
    forall g: Handle
      ensures Count(Ref(heap, h), g) == SlotRefs(slots, g) + (held + multiset{h})[g]
    {
      assert Count(heap, g) == SlotRefs(slots, g) + held[g];
    }
  }

  /** A caller's dispose keeps every count exact; the block is freed exactly when no slot and no
      other caller holds it. */
  lemma DisposeCounted(heap: Heap, slots: seq<Slot<Entry>>, held: multiset<Handle>, h: Handle)
    requires Counted(heap, slots, held) && h in held
    ensures h in heap
    ensures Counted(Dispose(heap, h), slots, held - multiset{h})
    ensures h !in Dispose(heap, h) <==> SlotRefs(slots, h) == 0 && held[h] == 1
  {
    assert Count(heap, h) == SlotRefs(slots, h) + held[h];
    forall g: Handle
      ensures Count(Dispose(heap, h), g) == SlotRefs(slots, g) + (held - multiset{h})[g]
    {
      assert Count(heap, g) == SlotRefs(slots, g) + held[g];
    }
  }

  lemma {:induction false} SlotRefsFront(s: Slot<Entry>, rest: seq<Slot<Entry>>, h: Handle)
    ensures SlotRefs([s] + rest, h) == SlotRef(s, h) + SlotRefs(rest, h)
  {
    if rest == [] {
      assert [s] + rest == [s] && [s][..0] == [];
    } else {
      SlotRefsFront(s, rest[..|rest| - 1], h);
      assert ([s] + rest)[..|rest|] == [s] + rest[..|rest| - 1];
    }
  }

  /** Disposing the first slot of a cache that is being torn down. */
  lemma FrontCounted(heap: Heap, s: Slot<Entry>, rest: seq<Slot<Entry>>, held: multiset<Handle>)
    requires Counted(heap, [s] + rest, held)
    ensures s.valid ==> s.entry.block in heap
    ensures Counted(if s.valid then Dispose(heap, s.entry.block) else heap, rest, held)
  {
    if s.valid {
      SlotRefsFront(s, rest, s.entry.block);
      assert Count(heap, s.entry.block) > 0;
    }
    var heap' := if s.valid then Dispose(heap, s.entry.block) else heap;
    forall h: Handle
      ensures Count(heap', h) == SlotRefs(rest, h) + held[h]
    {
      SlotRefsFront(s, rest, h);
      assert Count(heap, h) == SlotRefs([s] + rest, h) + held[h];
    }
  }

  // ---- The cache of blocks ----

  /** What a position and its header decode to: sqfs_md_block_read or sqfs_data_block_read. */
  type Loader = (nat, nat) -> Option<MdBlock>

  ghost predicate SlotHolds(s: Slot<Entry>, heap: Heap, load: Loader, headerOf: nat -> nat) {
    s.valid ==>
      && s.entry.block in heap
      && load(s.key, headerOf(s.key)) == Some(MdBlock(heap[s.entry.block].data, s.entry.dataSize))
  }

  /** What the cache holds for a key is what the image holds there. */
  ghost predicate Cached(slots: seq<Slot<Entry>>, heap: Heap, load: Loader, headerOf: nat -> nat) {
    forall i | 0 <= i < |slots| :: SlotHolds(slots[i], heap, load, headerOf)
  }

  /** Slots keep their contents while blocks they do not hold come and go. */
  lemma StillCached(slots: seq<Slot<Entry>>, heap: Heap, slots': seq<Slot<Entry>>, heap': Heap,
                    held: multiset<Handle>, load: Loader, headerOf: nat -> nat)
    requires Cached(slots, heap, load, headerOf) && Kept(heap, heap')
    requires Counted(heap', slots', held)
    requires |slots'| == |slots| && forall i | 0 <= i < |slots| :: slots'[i].valid ==> slots'[i] == slots[i]
    ensures Cached(slots', heap', load, headerOf)
  {
    forall i | 0 <= i < |slots'|
      ensures SlotHolds(slots'[i], heap', load, headerOf)
    {
      assert SlotHolds(slots[i], heap, load, headerOf);
      if slots'[i].valid {
        SlotRefsHas(slots', i);
        assert Count(heap', slots'[i].entry.block) > 0;
      }
    }
  }

  /** After a caller's dispose the cache still holds what the image holds, and the other references are good. */
  lemma ReleaseKeeps(heap: Heap, slots: seq<Slot<Entry>>, held: multiset<Handle>, h: Handle, load: Loader,
                     headerOf: nat -> nat)
    requires Counted(heap, slots, held) && Cached(slots, heap, load, headerOf) && h in held
    ensures h in heap && Dispose(heap, h).Keys <= heap.Keys
    ensures Counted(Dispose(heap, h), slots, held - multiset{h}) && Cached(slots, Dispose(heap, h), load, headerOf)
    ensures Alive(held - multiset{h}, heap, Dispose(heap, h))
    ensures h !in Dispose(heap, h) <==> SlotRefs(slots, h) == 0 && held[h] == 1
  {
    DisposeCounted(heap, slots, held, h);
    StillCached(slots, heap, slots, Dispose(heap, h), held - multiset{h}, load, headerOf);
    HeldAlive(heap, Dispose(heap, h), slots, held - multiset{h}, held - multiset{h});
  }

  class BlockCache {
    const cache: Cache<Entry>
    const load: Loader
    /** The header that belongs to a position; the cache looks at positions only. */
    ghost const headerOf: nat -> nat
    var heap: Heap
    var nextHandle: Handle
    /** References given out and not yet disposed. */
    ghost var held: multiset<Handle>
    /** A slot is taken for a load that has not succeeded. */
    ghost var failed: bool

    ghost function Repr(): set<object> {
      {this, cache, cache.slots}
    }

    ghost predicate Valid()
      reads Repr()
    {
      && cache.Valid()
      && Counted(heap, cache.slots[..], held)
      && Cached(cache.slots[..], heap, load, headerOf)
      && (forall h | h in heap :: h < nextHandle)
      && (!failed ==> Clean(cache.slots[..]))
    }

    constructor (count: nat, load: Loader, ghost headerOf: nat -> nat)
      requires 0 < count
      ensures Valid() && fresh(Repr())
      ensures this.load == load && this.headerOf == headerOf
      ensures !failed && held == multiset{}
    {
      cache := new Cache(count, Entry(0, 0));
      this.load := load;
      this.headerOf := headerOf;
      heap := map[];
      nextHandle := 0;
      held := multiset{};
      failed := false;
      new;
      forall h: Handle
        ensures SlotRefs(cache.slots[..], h) == 0
      {
        SlotRefsNone(cache.slots[..], h);
      }
    }

    /** sqfs_cache_get with its eviction callback: the evicted block loses the cache's reference. */
    method Look(key: nat) returns (look: Lookup<Entry>)
      requires Valid()
      modifies Repr()
      ensures Valid() && held == old(held) && nextHandle == old(nextHandle)
      ensures failed <==> old(failed) || look.Fresh?
      ensures Kept(old(heap), heap)
      ensures look.Abort? <==> Poisoned(old(cache.slots[..]), key)
      ensures look.Hit? ==>
                && look.slot < cache.slots.Length && cache.slots[look.slot].valid && cache.slots[look.slot].key == key
      ensures !look.Fresh? ==> cache.slots[..] == old(cache.slots[..])
      ensures look.Fresh? ==>
                && look.slot < cache.slots.Length
                && cache.slots[..] ==
                   old(cache.slots[..])[look.slot := Slot(false, key, old(cache.slots[..])[look.slot].entry)]
    {
      ghost var before := cache.slots[..];
      look := cache.Get(key);
      if look.Fresh? {
        failed := true;
        assert cache.slots[..] == before[look.slot := Slot(false, key, before[look.slot].entry)];
        if look.evicted.Some? {
          EvictCounted(heap, before, held, look.slot, key);
          heap := Dispose(heap, look.evicted.value.block);
        } else {
          ReuseCounted(heap, before, held, look.slot, key);
        }
        StillCached(before, old(heap), cache.slots[..], heap, held, load, headerOf);
      }
    }

    /** sqfs_md_cache and sqfs_data_cache: the block at `pos`, with a reference for the caller. The
        answer is what the image holds at `pos`, whatever was cached or evicted before; it asserts
        exactly when an earlier read of `pos` failed (or `pos` is 0 and a slot is untouched). */
    method Get(pos: nat, hdr: nat) returns (r: Result<Entry>)
      requires Valid() && hdr == headerOf(pos)
      modifies Repr()
      ensures Valid()
      ensures r == Err(AssertFailed) <==> Poisoned(old(cache.slots[..]), pos)
      ensures r == Err(IoError) ==> load(pos, hdr).None?
      ensures r.Err? ==> r.error in {AssertFailed, IoError} && held == old(held)
      ensures r.Ok? ==>
                && held == old(held) + multiset{r.value.block}
                && r.value.block in heap
                && load(pos, hdr) == Some(MdBlock(heap[r.value.block].data, r.value.dataSize))
      ensures !old(failed) && pos != 0 ==> r != Err(AssertFailed)
      ensures r.Ok? ==> failed == old(failed)
      ensures Alive(old(held), old(heap), heap)
    {
      r := Fetch(pos, hdr);
      if r.Ok? {
        Reference(r.value.block);
      }
    }

    /** The part of Get that finds or loads the block, before the caller's reference is added. */
    method Fetch(pos: nat, hdr: nat) returns (r: Result<Entry>)
      requires Valid() && hdr == headerOf(pos)
      modifies Repr()
      ensures Valid() && held == old(held)
      ensures r == Err(AssertFailed) <==> Poisoned(old(cache.slots[..]), pos)
      ensures r == Err(IoError) ==> load(pos, hdr).None?
      ensures r.Err? ==> r.error in {AssertFailed, IoError}
      ensures r.Ok? ==>
                && r.value.block in heap
                && load(pos, hdr) == Some(MdBlock(heap[r.value.block].data, r.value.dataSize))
      ensures !old(failed) && pos != 0 ==> r != Err(AssertFailed)
      ensures r.Ok? ==> failed == old(failed)
      ensures Alive(old(held), old(heap), heap)
    {
      var look := Look(pos);
      HeldAlive(old(heap), heap, cache.slots[..], held, held);
      match look
      case Abort =>
        return Err(AssertFailed);
      case Hit(i) =>
        assert SlotHolds(cache.slots[..][i], heap, load, headerOf);
        r := Ok(cache.slots[i].entry);
      case Fresh(i, _) =>
        assert cache.slots[..][i] == Slot(false, pos, old(cache.slots[..])[i].entry);
        r := Load(i, pos, hdr, old(failed));
    }

    /** The part of sqfs_md_cache and sqfs_data_cache that loads a block into the fresh slot i. */
    method Load(i: nat, pos: nat, hdr: nat, ghost before: bool) returns (r: Result<Entry>)
      requires Valid() && hdr == headerOf(pos) && failed
      requires i < cache.slots.Length && !cache.slots[i].valid && cache.slots[i].key == pos
      requires !before ==>
                 forall j | 0 <= j < cache.slots.Length && j != i :: cache.slots[j].valid || cache.slots[j].key == 0
      modifies Repr()
      ensures Valid() && held == old(held)
      ensures r.Err? ==> r == Err(IoError) && load(pos, hdr).None? && heap == old(heap)
      ensures r.Ok? ==>
                && failed == before && r.value.block in heap && r.value.block !in old(heap)
                && load(pos, hdr) == Some(MdBlock(heap[r.value.block].data, r.value.dataSize))
                && heap == old(heap)[r.value.block := heap[r.value.block]]
    {
      var b := load(pos, hdr);
      if b.None? {
        return Err(IoError);
      }
      var e := Allocate(i, b.value);
      failed := before;
      r := Ok(e);
    }

    /** sqfs_block_read's malloc with count one, stored in the fresh slot, which becomes valid. */
    method Allocate(i: nat, b: MdBlock) returns (e: Entry)
      requires Valid() && i < cache.slots.Length && !cache.slots[i].valid
      requires load(cache.slots[i].key, headerOf(cache.slots[i].key)) == Some(b)
      modifies Repr()
      ensures Valid() && held == old(held) && failed == old(failed)
      ensures e.block !in old(heap) && e.dataSize == b.diskSize
      ensures heap == old(heap)[e.block := Block(b.data, 1)]
      ensures cache.slots[..] == old(cache.slots[..])[i := Slot(true, old(cache.slots[i].key), e)]
    {
      ghost var before := cache.slots[..];
      e := Entry(nextHandle, b.diskSize);
      FillCounted(heap, before, held, i, before[i].key, e, b.data);
      heap := heap[nextHandle := Block(b.data, 1)];
      nextHandle := nextHandle + 1;
      cache.Fill(i, e);
      forall j | 0 <= j < |before|
        ensures SlotHolds(cache.slots[..][j], heap, load, headerOf)
      {
        assert SlotHolds(before[j], old(heap), load, headerOf);
      }
    }

    /** sqfs_block_ref for a caller. */
    method Reference(h: Handle)
      requires Valid() && h in heap
      modifies this`heap, this`held
      ensures Valid() && held == old(held) + multiset{h}
      ensures heap == Ref(old(heap), h)
    {
      RefCounted(heap, cache.slots[..], held, h);
      heap := Ref(heap, h);
      held := held + multiset{h};
      forall j | 0 <= j < cache.slots.Length
        ensures SlotHolds(cache.slots[..][j], heap, load, headerOf)
      {
        assert SlotHolds(cache.slots[..][j], old(heap), load, headerOf);
      }
    }

    /** sqfs_block_dispose by a caller: frees the block exactly when no slot caches it and no other
        reference is out; every other reference stays good. */
    method Release(h: Handle)
      requires Valid() && h in held
      modifies this`heap, this`held
      ensures Valid() && held == old(held) - multiset{h}
      ensures h !in heap <==> SlotRefs(cache.slots[..], h) == 0 && old(held)[h] == 1
      ensures Alive(held, old(heap), heap)
    {
      ReleaseKeeps(heap, cache.slots[..], held, h, load, headerOf);
      heap := Dispose(heap, h);
      held := held - multiset{h};
    }

    /** sqfs_cache_destroy: every cached block is disposed; what stays live is exactly what callers
        still hold, so with no reference out nothing leaks. */
    method Destroy()
      requires Valid()
      modifies this`heap
      ensures Counted(heap, [], held)
      ensures Alive(held, old(heap), heap)
      ensures held == multiset{} ==> heap == map[]
    {
      var i := 0;
      ghost var slots := cache.slots[..];
      while i < cache.slots.Length
        invariant 0 <= i <= cache.slots.Length
        invariant Kept(old(heap), heap)
        invariant Counted(heap, slots[i..], held)
      {
        assert slots[i..] == [slots[i]] + slots[i + 1..];
        FrontCounted(heap, slots[i], slots[i + 1..], held);
        if cache.slots[i].valid {
          heap := Dispose(heap, cache.slots[i].entry.block);
        }
        i := i + 1;
      }
      HeldAlive(old(heap), heap, [], held, held);
      assert forall h | h in heap :: Count(heap, h) == held[h];
    }
  }
}
