/** The allocator of trampolines: detour_alloc_trampoline, detour_free_trampoline, and giving back regions.
    A clause `P() == true` is proved as one fact, and not conjunct by conjunct, which keeps the proofs quick. */
module Allocator {
  import opened Prelude
  import opened Addresses
  import opened DetourJump
  import opened Trampolines

  /** Some listed region has its first free slot within the bounds. */
  ghost predicate HasChoice(regions: seq<Address>, pFree: Address -> Address, bounds: (Address, Address)) {
    exists r | r in regions :: Within(pFree(r), bounds)
  }

  /** `r` is the region to take from: the default region if its first free slot is within the bounds, or else the
      first listed one of which that is true. */
  ghost predicate IsChoice(r: Address, current: Address, regions: seq<Address>, pFree: Address -> Address,
                           bounds: (Address, Address))
  {
    && Within(pFree(r), bounds)
    && if current != NULL && Within(pFree(current), bounds) then r == current
       else
         exists k | 0 <= k < |regions| ::
           r == regions[k] && forall j | 0 <= j < k :: !Within(pFree(regions[j]), bounds)
  }

  /** A trampoline within the bounds is to be had: in a listed region, or as the first slot of the new region that
      the search of the address space finds. */
  ghost predicate HasSlot(regions: seq<Address>, pFree: Address -> Address, region: Option<Address>,
                          bounds: (Address, Address))
    requires region.Some? ==> IsRegion(region.value)
  {
    HasChoice(regions, pFree, bounds) || (region.Some? && Within(SlotAt(region.value, FIRST_SLOT), bounds))
  }

  /** The slot that is handed out. */
  ghost predicate IsSlotOf(t: Address, current: Address, regions: seq<Address>, pFree: Address -> Address,
                           region: Option<Address>, bounds: (Address, Address))
    requires region.Some? ==> IsRegion(region.value)
  {
    if HasChoice(regions, pFree, bounds) then
      exists r | r in regions :: IsChoice(r, current, regions, pFree, bounds) && t == pFree(r)
    else region.Some? && t == SlotAt(region.value, FIRST_SLOT)
  }

  class Allocator {
    /** The list s_pRegions, the default region s_pRegion, each region's pFree, and the slots. */
    var regions: seq<Address>
    var current: Address
    var pFree: Address -> Address
    var slots: Slots

    /** The free list of each region, and the trampolines handed out. */
    ghost var chain: Address -> seq<Address>
    ghost var live: set<Address>

    ghost predicate Valid()
      reads this
    {
      Consistent() && Listed()
    }

    ghost predicate Listed()
      reads `current, `regions
    {
      current == NULL || current in regions
    }

    ghost predicate Consistent()
      reads `regions, `pFree, `slots, `chain, `live
    {
      AllSound(regions, pFree, slots, chain, live) && AllBelong(regions, live)
    }

    constructor ()
      ensures Valid() && live == {} && regions == []
    {
      regions, current := [], NULL;
      pFree := _ => NULL;
      slots := _ => Filled(0);
      chain := _ => [];
      live := {};
    }

    /** The last part of detour_alloc_trampoline: the first free slot of the default region, if it is within
        the bounds. */
    method Take(bounds: (Address, Address)) returns (t: Option<Address>)
      requires Valid() && current in regions && pFree(current) != NULL
      modifies `pFree, `slots, `chain, `live
      ensures Valid()
      ensures t == if Within(old(pFree(current)), bounds) then Some(old(pFree(current))) else None
      ensures t.Some? ==> t.value !in old(live) && live == old(live) + {t.value}
      ensures t.None? ==> live == old(live) && slots == old(slots)
      ensures forall a | a in old(live) :: slots(a) == old(slots(a))
    {
      var first := pFree(current);
      if !Within(first, bounds) {
        return None;
      }
      var next := slots(first).pbRemain;
      TakeAllSound(regions, pFree, slots, chain, live, current, Filled(0xcc));
      pFree := Put(pFree, current, next);
      slots := Put(slots, first, Filled(0xcc));
      chain := Put(chain, current, chain(current)[1..]);
      live := live + {first};
      return Some(first);
    }

    /** The search of the listed regions: makes the first one that will do the default region. */
    method FindRegion(bounds: (Address, Address)) returns (found: bool)
      requires Listed()
      modifies `current
      ensures Listed()
      ensures found <==> HasChoice(regions, pFree, bounds)
      ensures found ==> current in regions && IsChoice(current, old(current), regions, pFree, bounds)
    {
      if current == NULL && regions != [] {
        current := regions[0];
      }
      if current != NULL && Within(pFree(current), bounds) {
        return true;
      }
      for k := 0 to |regions|
        invariant forall j | 0 <= j < k :: !Within(pFree(regions[j]), bounds)
      {
        current := regions[k];
        if Within(pFree(current), bounds) {
          return true;
        }
      }
      current := NULL;
      return false;
    }

    /** Puts all slots of a fresh region but the first two on its free list. */
    method Thread(r: Address) returns (head: Address, ghost c: seq<Address>)
      requires IsRegion(r)
      modifies `slots
      ensures IsChain(r, head, slots, c) && AreSlots(r, FIRST_SLOT, c) && head == SlotAt(r, FIRST_SLOT)
      ensures forall a | RegionOf(a) != r :: slots(a) == old(slots(a))
      ensures slots(SlotAt(r, 0)).pbRemain == NULL && slots(SlotAt(r, 1)).pbRemain == NULL
    {
      ghost var before := slots;
      RegionOfSlot(r, 0);
      RegionOfSlot(r, 1);
      slots := Zeroed(slots, r);
      head, c := NULL, [];
      var i: nat := PER_REGION;
      while i > FIRST_SLOT
        invariant FIRST_SLOT <= i <= PER_REGION
        invariant IsChain(r, head, slots, c) && AreSlots(r, i, c)
        invariant forall a | RegionOf(a) != r :: slots(a) == before(a)
        invariant slots(SlotAt(r, 0)).pbRemain == NULL && slots(SlotAt(r, 1)).pbRemain == NULL
      {
        i := i - 1;
        RegionOfSlot(r, i);
        ThreadOne(r, head, slots, c, i);
        slots := Put(slots, SlotAt(r, i), slots(SlotAt(r, i)).(pbRemain := head));
        head, c := SlotAt(r, i), [SlotAt(r, i)] + c;
      }
    }

    /** Lists a new region. */
    method AddRegion(r: Address)
      requires Valid() && IsRegion(r) && r !in regions
      modifies `regions, `current, `pFree, `slots, `chain
      ensures Valid() && regions == [r] + old(regions) && current == r && pFree(r) == SlotAt(r, FIRST_SLOT)
      ensures forall a | a in live :: slots(a) == old(slots(a))
    {
      ghost var before, c := slots, [];
      var head;
      head, c := Thread(r);
      MoreBelong(regions, live, r);
      NewDivides(r, c, live);
      AddAllSound(regions, pFree, before, slots, chain, live, r, head, c);
      pFree := Put(pFree, r, head);
      chain := Put(chain, r, c);
      regions := [r] + regions;
      current := r;
    }

    /** detour_alloc_trampoline for the code at `target`: a slot is handed out exactly if there is one within the
        bounds. `region` is what the search of the address space finds, should a new region be needed. */
    method Alloc(mem: Memory, target: Address, region: Option<Address>) returns (t: Option<Address>)
      requires Valid() && (region.Some? ==> IsRegion(region.value) && region.value !in regions)
      modifies this
      ensures Valid()
      ensures t.Some? <==> old(HasSlot(regions, pFree, region, Bounds(mem, target)))
      ensures t.Some? ==> IsSlotOf(t.value, old(current), old(regions), old(pFree), region, Bounds(mem, target))
      ensures t.Some? ==> Within(t.value, Bounds(mem, target)) && t.value !in old(live) && Belongs(regions, t.value)
      ensures live == old(live) + if t.Some? then {t.value} else {}
      ensures forall a | a in old(live) :: slots(a) == old(slots(a))
      ensures regions ==
              (if old(HasChoice(regions, pFree, Bounds(mem, target))) || region.None? then []
               else [region.value]) + old(regions)
    {
      var bounds := Bounds(mem, target);
      var found := FindRegion(bounds);
      if !found {
        if region.None? {
          return None;
        }
        AddRegion(region.value);
      }
      t := Take(bounds);
    }

    /** detour_free_trampoline. */
    method Free(t: Address)
      requires Valid() && t in live
      modifies `pFree, `slots, `chain, `live
      ensures Valid() && live == old(live) - {t}
      ensures forall a | a != t :: slots(a) == old(slots(a))
    {
      var r := RegionOf(t);
      var v := Filled(0).(pbRemain := pFree(r));
      GiveAllSound(regions, pFree, slots, chain, live, t, v);
      pFree := Put(pFree, r, t);
      slots := Put(slots, t, v);
      chain := Put(chain, r, [t] + chain(r));
      live := live - {t};
    }

    /** Writing the fields of a trampoline that is handed out. */
    method Write(t: Address, v: Trampoline)
      requires Valid() && t in live
      modifies `slots
      ensures Valid() && slots(t) == v
      ensures forall a | a != t :: slots(a) == old(slots(a))
    {
      WriteAllSound(regions, pFree, slots, chain, live, t, v);
      slots := Put(slots, t, v);
    }

    /** detour_is_region_empty. */
    method IsRegionEmpty(r: Address) returns (empty: bool)
      requires IsRegion(r)
      ensures empty <==> LooksEmpty(r, slots)
    {
      for i := 0 to PER_REGION
        invariant forall k: nat | k < i :: Stays(r, slots, SlotAt(r, k))
      {
        if !Stays(r, slots, SlotAt(r, i)) {
          return false;
        }
      }
      return true;
    }

    /** Every trampoline handed out goes on to code outside its region. */
    ghost predicate Anchored()
      reads `live, `slots
    {
      forall t | t in live :: !Stays(RegionOf(t), slots, t)
    }

    ghost predicate AllInOrder()
      reads `regions, `pFree, `slots, `chain, `live
    {
      AllSound(regions, pFree, slots, chain, live)
    }

    /** Takes a region off the list. */
    method Drop(k: nat)
      requires AllInOrder() && k < |regions|
      modifies `regions, `current
      ensures AllInOrder() == true && regions == Without(old(regions), k) && current == NULL
    {
      DropSound(regions, pFree, slots, chain, live, k);
      regions := Without(regions, k);
      current := NULL;
    }

    /** The test of a listed region. */
    method LooksUnused(k: nat) returns (unused: bool)
      requires AllInOrder() && k < |regions|
      ensures unused <==> SeemsUnused(regions[k], slots)
    {
      assert Sound(regions[k], pFree(regions[k]), slots, chain(regions[k]), live);
      unused := IsRegionEmpty(regions[k]);
    }

    /** detour_free_unused_trampoline_regions: gives back exactly the regions that look empty. All trampolines
        handed out keep their region exactly if none is in such a region; if trampolines go on to code outside
        their region, exactly the regions without one are given back. */
    method FreeUnused()
      requires Valid()
      modifies `regions, `current
      ensures AllInOrder() && Listed()
      ensures Sifted(old(regions), regions, slots, |regions|)
      ensures Valid() <==> forall t | t in live :: !SeemsUnused(RegionOf(t), slots)
      ensures Anchored() ==> Valid() && KeptUsed(old(regions), regions, live)
    {
      var k: nat := 0;
      while k < |regions|
        invariant k <= |regions| && AllInOrder() == true && Listed()
        invariant Sifted(old(regions), regions, slots, k) == true
        decreases |regions| - k
      {
        var unused := LooksUnused(k);
        if unused {
          SiftDrop(old(regions), regions, slots, k);
          Drop(k);
        } else {
          SiftKeep(old(regions), regions, slots, k);
          k := k + 1;
        }
      }
      SiftedBelong(old(regions), regions, slots, live);
      if Anchored() {
        SiftedUnused(old(regions), regions, pFree, slots, chain, live);
      }
    }
  }
}
