/** The trampolines of the detours: regions of slots, free lists threaded through the slots, and regions that
    come and go. */
module Trampolines {
  import opened Prelude
  import opened Addresses
  import opened DetourJump

  const REGION_SIZE := 0x1_0000
  const TRAMPOLINE_SIZE := 96
  const PER_REGION := 681

  /** The first two slots of a region are never handed out. */
  const FIRST_SLOT := 2

  const NULL: Address := 0

  /** _DETOUR_TRAMPOLINE for x64, without its alignment array. `pbRemain` links free slots. */
  datatype Trampoline = Trampoline(rbCode: seq<Byte>, rbRestore: seq<Byte>, cbRestore: nat, pbRemain: Address,
                                   pbDetour: Address, rbCodeIn: seq<Byte>)

  type Slots = Address -> Trampoline

  /** A slot whose bytes are all `b`. */
  function Filled(b: Byte): Trampoline {
    var word := b * 0x0101_0101_0101_0101;
    Trampoline(seq(30, _ => b), seq(30, _ => b), b, word, word, seq(8, _ => b))
  }

  function Put<V(!new)>(f: Address -> V, at: Address, v: V): (g: Address -> V)
    ensures g(at) == v && forall a | a != at :: g(a) == f(a)
  {
    (a: Address) => if a == at then v else f(a)
  }

  // ---- Regions ----

  ghost predicate IsRegion(r: Address) {
    r % REGION_SIZE == 0 && 0 < r && r + REGION_SIZE < TWO64
  }

  /** Slot i of a region. */
  function SlotAt(r: Address, i: nat): (t: Address)
    requires r + REGION_SIZE < TWO64 && i < PER_REGION
    ensures r < t && t + TRAMPOLINE_SIZE <= r + REGION_SIZE
  {
    r + TRAMPOLINE_SIZE * (1 + i)
  }

  /** The region of an address, by masking. */
  function RegionOf(t: Address): (r: Address)
    ensures r <= t < r + REGION_SIZE
  {
    t - t % REGION_SIZE
  }

  lemma RegionOfSlot(r: Address, i: nat)
    requires IsRegion(r) && i < PER_REGION
    ensures RegionOf(SlotAt(r, i)) == r
  {
  }

  lemma RegionsAreApart(r: Address, q: Address)
    requires r % REGION_SIZE == 0 && q % REGION_SIZE == 0 && r < q
    ensures r + REGION_SIZE <= q
  {
  }

  /** Slots do not overlap. */
  lemma SlotsAreApart(r: Address, i: nat, q: Address, j: nat)
    requires IsRegion(r) && IsRegion(q) && i < PER_REGION && j < PER_REGION && SlotAt(r, i) != SlotAt(q, j)
    ensures SlotAt(r, i) + TRAMPOLINE_SIZE <= SlotAt(q, j) || SlotAt(q, j) + TRAMPOLINE_SIZE <= SlotAt(r, i)
  {
    if r < q {
      RegionsAreApart(r, q);
    } else if q < r {
      RegionsAreApart(q, r);
    }
  }

  ghost predicate IsSlot(r: Address, t: Address)
    requires IsRegion(r)
  {
    exists i: nat | FIRST_SLOT <= i < PER_REGION :: t == SlotAt(r, i)
  }

  /** What entry j of a list is linked to. */
  function Next(c: seq<Address>, j: nat): Address
    requires j < |c|
  {
    if j + 1 < |c| then c[j + 1] else NULL
  }

  /** The free list of a region: distinct slots, each linked to the next, and the last to none. */
  ghost predicate IsChain(r: Address, head: Address, slots: Slots, c: seq<Address>)
    requires IsRegion(r)
  {
    && head == (if c == [] then NULL else c[0])
    && (forall j | 0 <= j < |c| :: IsSlot(r, c[j]))
    && (forall j, k | 0 <= j < k < |c| :: c[j] != c[k])
    && (forall j | 0 <= j < |c| :: slots(c[j]).pbRemain == Next(c, j))
  }

  /** Every slot of a region is either on its free list or handed out. */
  ghost predicate Divides(r: Address, c: seq<Address>, live: set<Address>)
    requires IsRegion(r)
  {
    forall i: nat | FIRST_SLOT <= i < PER_REGION :: SlotAt(r, i) in live <==> SlotAt(r, i) !in c
  }

  /** The state of one region. */
  ghost predicate Sound(r: Address, head: Address, slots: Slots, c: seq<Address>, live: set<Address>) {
    && IsRegion(r)
    && IsChain(r, head, slots, c)
    && Divides(r, c, live)
    && slots(SlotAt(r, 0)).pbRemain == NULL && slots(SlotAt(r, 1)).pbRemain == NULL
  }

  /** A trampoline that is handed out belongs to a listed region. */
  ghost predicate Belongs(regions: seq<Address>, t: Address) {
    RegionOf(t) in regions && IsRegion(RegionOf(t)) && IsSlot(RegionOf(t), t)
  }

  ghost predicate AllBelong(regions: seq<Address>, live: set<Address>) {
    forall t {:trigger Belongs(regions, t)} | t in live :: Belongs(regions, t)
  }

  lemma MoreBelong(regions: seq<Address>, live: set<Address>, r: Address)
    requires AllBelong(regions, live)
    ensures AllBelong([r] + regions, live)
    ensures r !in regions ==> forall t | t in live :: RegionOf(t) != r
  {
    forall t | t in live
      ensures Belongs([r] + regions, t) && (r !in regions ==> RegionOf(t) != r)
    {
      assert Belongs(regions, t);
    }
  }

  /** Trampolines that are handed out do not overlap. */
  lemma LiveAreApart(regions: seq<Address>, live: set<Address>, t: Address, u: Address)
    requires AllBelong(regions, live) && t in live && u in live && t != u
    ensures t + TRAMPOLINE_SIZE <= u || u + TRAMPOLINE_SIZE <= t
  {
    assert Belongs(regions, t) && Belongs(regions, u);
    var i: nat :| FIRST_SLOT <= i < PER_REGION && t == SlotAt(RegionOf(t), i);
    var j: nat :| FIRST_SLOT <= j < PER_REGION && u == SlotAt(RegionOf(u), j);
    SlotsAreApart(RegionOf(t), i, RegionOf(u), j);
  }

  // ---- What changes in a region, and what does not ----

  /** Taking the first free slot. */
  lemma TakeSound(r: Address, slots: Slots, c: seq<Address>, live: set<Address>, v: Trampoline)
    requires Sound(r, if c == [] then NULL else c[0], slots, c, live) && c != []
    ensures Sound(r, slots(c[0]).pbRemain, Put(slots, c[0], v), c[1..], live + {c[0]})
    ensures c[0] !in live && RegionOf(c[0]) == r && IsSlot(r, c[0])
  {
    var t, rest := c[0], c[1..];
    var i: nat :| FIRST_SLOT <= i < PER_REGION && t == SlotAt(r, i);
    RegionOfSlot(r, i);
    assert slots(c[0]).pbRemain == Next(c, 0);
    forall j | 0 <= j < |rest|
      ensures rest[j] == c[j + 1] && slots(rest[j]).pbRemain == Next(rest, j)
    {
      assert slots(c[j + 1]).pbRemain == Next(c, j + 1);
    }
    assert IsChain(r, slots(t).pbRemain, Put(slots, t, v), rest);
    forall k: nat | FIRST_SLOT <= k < PER_REGION
      ensures SlotAt(r, k) in live + {t} <==> SlotAt(r, k) !in rest
    {
    }
  }

  /** Linking one more slot in front of a list. */
  lemma PrependChain(r: Address, head: Address, slots: Slots, c: seq<Address>, t: Address, v: Trampoline)
    requires IsRegion(r) && IsChain(r, head, slots, c) && t !in c && IsSlot(r, t) && v.pbRemain == head
    ensures IsChain(r, t, Put(slots, t, v), [t] + c)
  {
    var slots2, c2 := Put(slots, t, v), [t] + c;
    forall j | 0 <= j < |c2|
      ensures IsSlot(r, c2[j]) && slots2(c2[j]).pbRemain == Next(c2, j)
    {
      if j > 0 {
        assert c2[j] == c[j - 1] && slots(c[j - 1]).pbRemain == Next(c, j - 1);
      }
    }
  }

  /** Giving a slot back. */
  lemma GiveSound(r: Address, head: Address, slots: Slots, c: seq<Address>, live: set<Address>, t: Address,
                  v: Trampoline)
    requires Sound(r, head, slots, c, live) && t in live && IsSlot(r, t) && v.pbRemain == head
    ensures Sound(r, t, Put(slots, t, v), [t] + c, live - {t})
  {
    var i: nat :| FIRST_SLOT <= i < PER_REGION && t == SlotAt(r, i);
    PrependChain(r, head, slots, c, t, v);
  }

  /** Giving the same slot back twice links it to itself: its region's free list has no end any more. */
  lemma FreedTwice(r: Address, head: Address, slots: Slots, t: Address, c: seq<Address>)
    requires IsRegion(r) && t != NULL
    ensures var once := Put(slots, t, Filled(0).(pbRemain := head));
            !IsChain(r, t, Put(once, t, Filled(0).(pbRemain := t)), c)
  {
  }

  /** A region is not touched by a write to a slot of another one, or to a slot that is handed out. */
  lemma ElsewhereSound(r: Address, head: Address, slots: Slots, c: seq<Address>, live: set<Address>, t: Address,
                       v: Trampoline, live2: set<Address>)
    requires Sound(r, head, slots, c, live)
    requires RegionOf(t) != r || (t in live && IsSlot(r, t) && live2 == live)
    requires forall a | RegionOf(a) == r :: a in live2 <==> a in live
    ensures Sound(r, head, Put(slots, t, v), c, live2)
  {
    forall i: nat | i < PER_REGION
      ensures RegionOf(SlotAt(r, i)) == r
    {
      RegionOfSlot(r, i);
    }
    assert IsChain(r, head, Put(slots, t, v), c);
  }

  /** Nor by writes that stay in another region. */
  lemma OtherRegionSound(r: Address, head: Address, before: Slots, after: Slots, c: seq<Address>, live: set<Address>,
                         q: Address)
    requires Sound(r, head, before, c, live) && q != r
    requires forall a | RegionOf(a) != q :: after(a) == before(a)
    ensures Sound(r, head, after, c, live)
  {
    forall i: nat | i < PER_REGION
      ensures RegionOf(SlotAt(r, i)) == r
    {
      RegionOfSlot(r, i);
    }
    assert IsChain(r, head, after, c);
  }

  // ---- New regions ----

  /** `c` lists all slots of a region from slot i on. */
  ghost predicate AreSlots(r: Address, i: nat, c: seq<Address>)
    requires IsRegion(r)
  {
    |c| == PER_REGION - i && forall j | 0 <= j < |c| :: c[j] == SlotAt(r, i + j)
  }

  /** Fresh pages are zero. */
  function Zeroed(slots: Slots, r: Address): (z: Slots)
    ensures forall a :: z(a) == if RegionOf(a) == r then Filled(0) else slots(a)
  {
    (a: Address) => if RegionOf(a) == r then Filled(0) else slots(a)
  }

  /** Linking slot i in front of the slots behind it. */
  lemma ThreadOne(r: Address, head: Address, slots: Slots, c: seq<Address>, i: nat)
    requires IsRegion(r) && FIRST_SLOT <= i < PER_REGION
    requires IsChain(r, head, slots, c) && AreSlots(r, i + 1, c)
    ensures var t := SlotAt(r, i);
            IsChain(r, t, Put(slots, t, slots(t).(pbRemain := head)), [t] + c) && AreSlots(r, i, [t] + c)
  {
    var t := SlotAt(r, i);
    PrependChain(r, head, slots, c, t, slots(t).(pbRemain := head));
    forall j | 0 <= j < |[t] + c|
      ensures ([t] + c)[j] == SlotAt(r, i + j)
    {
      if j > 0 {
        assert c[j - 1] == SlotAt(r, i + 1 + (j - 1));
      }
    }
  }

  lemma NewDivides(r: Address, c: seq<Address>, live: set<Address>)
    requires IsRegion(r) && AreSlots(r, FIRST_SLOT, c) && forall t | t in live :: RegionOf(t) != r
    ensures Divides(r, c, live)
  {
    forall i: nat | FIRST_SLOT <= i < PER_REGION
      ensures SlotAt(r, i) in c && SlotAt(r, i) !in live
    {
      assert c[i - FIRST_SLOT] == SlotAt(r, i);
      RegionOfSlot(r, i);
    }
  }

  /** A slot is within the bounds that detour_find_jmp_bounds gives. */
  predicate Within(t: Address, bounds: (Address, Address)) {
    t != NULL && bounds.0 <= t <= bounds.1
  }

  /** The bounds admit exactly the addresses that are near the code and what it jumps to, but for the first and the
      last 512 KB of memory where both are near that end. */
  lemma WithinIff(mem: Memory, at: Address, t: Address)
    ensures var to := if JumpsTo(mem, at).Some? then JumpsTo(mem, at).value else at;
            Within(t, Bounds(mem, at)) <==>
              && t != 0 && IsNear(t, at) && IsNear(t, to)
              && (at <= 0x7ff8_0000 && to <= 0x7ff8_0000 ==> t >= 0x8_0000)
              && (at >= TWO64 - 0x8000_0000 && to >= TWO64 - 0x8000_0000 ==> t <= TWO64 - 0x8_0000)
  {
  }

  // ---- All regions ----

  ghost predicate AllSound(regions: seq<Address>, pFree: Address -> Address, slots: Slots,
                           chain: Address -> seq<Address>, live: set<Address>)
  {
    forall r {:trigger Sound(r, pFree(r), slots, chain(r), live)} | r in regions ::
      Sound(r, pFree(r), slots, chain(r), live)
  }

  lemma TakeAllSound(regions: seq<Address>, pFree: Address -> Address, slots: Slots, chain: Address -> seq<Address>,
                     live: set<Address>, r: Address, v: Trampoline)
    requires AllSound(regions, pFree, slots, chain, live) && r in regions && pFree(r) != NULL
    ensures chain(r) != [] && chain(r)[0] == pFree(r)
    ensures pFree(r) !in live && RegionOf(pFree(r)) == r && IsRegion(r) && IsSlot(r, pFree(r))
    ensures var t := pFree(r);
            AllSound(regions, Put(pFree, r, slots(t).pbRemain), Put(slots, t, v), Put(chain, r, chain(r)[1..]),
                     live + {t})
  {
    var t := pFree(r);
    assert Sound(r, t, slots, chain(r), live);
    TakeSound(r, slots, chain(r), live, v);
    forall q | q in regions && q != r
      ensures Sound(q, pFree(q), Put(slots, t, v), chain(q), live + {t})
    {
      assert Sound(q, pFree(q), slots, chain(q), live);
      ElsewhereSound(q, pFree(q), slots, chain(q), live, t, v, live + {t});
    }
  }

  lemma GiveAllSound(regions: seq<Address>, pFree: Address -> Address, slots: Slots, chain: Address -> seq<Address>,
                     live: set<Address>, t: Address, v: Trampoline)
    requires AllSound(regions, pFree, slots, chain, live) && t in live && Belongs(regions, t)
    requires v.pbRemain == pFree(RegionOf(t))
    ensures var r := RegionOf(t);
            AllSound(regions, Put(pFree, r, t), Put(slots, t, v), Put(chain, r, [t] + chain(r)), live - {t})
  {
    var r := RegionOf(t);
    assert Sound(r, pFree(r), slots, chain(r), live);
    GiveSound(r, pFree(r), slots, chain(r), live, t, v);
    forall q | q in regions && q != r
      ensures Sound(q, pFree(q), Put(slots, t, v), chain(q), live - {t})
    {
      assert Sound(q, pFree(q), slots, chain(q), live);
      ElsewhereSound(q, pFree(q), slots, chain(q), live, t, v, live - {t});
    }
  }

  lemma AddAllSound(regions: seq<Address>, pFree: Address -> Address, before: Slots, slots: Slots,
                    chain: Address -> seq<Address>, live: set<Address>, r: Address, head: Address, c: seq<Address>)
    requires AllSound(regions, pFree, before, chain, live) && r !in regions
    requires Sound(r, head, slots, c, live) && forall a | RegionOf(a) != r :: slots(a) == before(a)
    ensures AllSound([r] + regions, Put(pFree, r, head), slots, Put(chain, r, c), live)
  {
    forall q | q in regions
      ensures Sound(q, pFree(q), slots, chain(q), live)
    {
      OtherRegionSound(q, pFree(q), before, slots, chain(q), live, r);
    }
  }

  /** Writing to a trampoline that is handed out. */
  lemma WriteAllSound(regions: seq<Address>, pFree: Address -> Address, slots: Slots, chain: Address -> seq<Address>,
                      live: set<Address>, t: Address, v: Trampoline)
    requires AllSound(regions, pFree, slots, chain, live) && t in live && Belongs(regions, t)
    ensures AllSound(regions, pFree, Put(slots, t, v), chain, live)
  {
    forall q | q in regions
      ensures Sound(q, pFree(q), Put(slots, t, v), chain(q), live)
    {
      assert Sound(q, pFree(q), slots, chain(q), live);
      ElsewhereSound(q, pFree(q), slots, chain(q), live, t, v, live);
    }
  }

  // ---- Empty regions ----

  /** Whether an address is in a region. */
  predicate Inside(r: Address, a: Address) {
    r <= a < r + REGION_SIZE
  }

  /** The slot is linked to none, or to something in its region. */
  predicate Stays(r: Address, slots: Slots, t: Address) {
    slots(t).pbRemain == NULL || Inside(r, slots(t).pbRemain)
  }

  /** What detour_is_region_empty looks at: every slot is linked to none, or to something in the region. */
  ghost predicate LooksEmpty(r: Address, slots: Slots)
    requires IsRegion(r)
  {
    forall i: nat | i < PER_REGION :: Stays(r, slots, SlotAt(r, i))
  }

  /** Inside a region are the addresses that masking leads to it. */
  lemma InsideIff(r: Address, a: Address)
    requires IsRegion(r)
    ensures Inside(r, a) <==> RegionOf(a) == r
  {
    if Inside(r, a) && RegionOf(a) < r {
      RegionsAreApart(RegionOf(a), r);
    } else if Inside(r, a) && r < RegionOf(a) {
      RegionsAreApart(r, RegionOf(a));
    }
  }

  /** A region looks empty exactly if each trampoline handed out in it remains nowhere, or inside the region itself. */
  lemma EmptyIff(r: Address, head: Address, slots: Slots, c: seq<Address>, live: set<Address>)
    requires Sound(r, head, slots, c, live)
    ensures LooksEmpty(r, slots) <==>
            forall t | t in live && IsSlot(r, t) :: slots(t).pbRemain == 0 || RegionOf(slots(t).pbRemain) == r
  {
    forall t: Address
      ensures Stays(r, slots, t) <==> slots(t).pbRemain == 0 || RegionOf(slots(t).pbRemain) == r
    {
      InsideIff(r, slots(t).pbRemain);
    }
    if LooksEmpty(r, slots) {
      forall t | t in live && IsSlot(r, t)
        ensures Stays(r, slots, t)
      {
      }
    }
    if forall t | t in live && IsSlot(r, t) :: Stays(r, slots, t) {
      forall i: nat | i < PER_REGION
        ensures Stays(r, slots, SlotAt(r, i))
      {
        SlotStays(r, head, slots, c, live, i);
      }
    }
  }

  lemma SlotStays(r: Address, head: Address, slots: Slots, c: seq<Address>, live: set<Address>, i: nat)
    requires Sound(r, head, slots, c, live) && i < PER_REGION
    requires forall t | t in live && IsSlot(r, t) :: Stays(r, slots, t)
    ensures Stays(r, slots, SlotAt(r, i))
  {
    if i == 0 {
    } else if i == 1 {
    } else if SlotAt(r, i) in live {
      assert IsSlot(r, SlotAt(r, i));
    } else {
      assert SlotAt(r, i) in c;
      FreeIsInside(r, head, slots, c, SlotAt(r, i));
    }
  }

  lemma FreeIsInside(r: Address, head: Address, slots: Slots, c: seq<Address>, t: Address)
    requires IsRegion(r) && IsChain(r, head, slots, c) && t in c
    ensures Stays(r, slots, t)
  {
    var j :| 0 <= j < |c| && c[j] == t;
    assert slots(c[j]).pbRemain == Next(c, j);
    if j + 1 < |c| {
      assert IsSlot(r, c[j + 1]);
    }
  }

  ghost predicate HasLive(r: Address, live: set<Address>) {
    exists t | t in live :: RegionOf(t) == r
  }

  /** Where trampolines go on to code outside their region, a region looks empty exactly if it is. */
  lemma EmptyIsUnused(regions: seq<Address>, pFree: Address -> Address, slots: Slots, chain: Address -> seq<Address>,
                      live: set<Address>, r: Address)
    requires AllSound(regions, pFree, slots, chain, live) && AllBelong(regions, live) && r in regions
    requires forall t | t in live :: !Stays(RegionOf(t), slots, t)
    ensures IsRegion(r) && (LooksEmpty(r, slots) <==> !HasLive(r, live))
  {
    assert Sound(r, pFree(r), slots, chain(r), live);
    EmptyIff(r, pFree(r), slots, chain(r), live);
    forall t | t in live
      ensures IsSlot(r, t) <==> RegionOf(t) == r
    {
      assert Belongs(regions, t);
      if IsSlot(r, t) {
        var i: nat :| FIRST_SLOT <= i < PER_REGION && t == SlotAt(r, i);
        RegionOfSlot(r, i);
      }
    }
  }

  function Without(regions: seq<Address>, k: nat): seq<Address>
    requires k < |regions|
  {
    regions[..k] + regions[k + 1..]
  }

  lemma WithoutKeeps(regions: seq<Address>, k: nat, r: Address)
    requires k < |regions|
    ensures r in Without(regions, k) ==> r in regions
    ensures r in regions ==> r in Without(regions, k) || r == regions[k]
  {
    if r in regions && r != regions[k] {
      var j :| 0 <= j < |regions| && regions[j] == r;
      assert Without(regions, k)[if j < k then j else j - 1] == r;
    }
  }

  /** Dropping a region from the list does not touch the others. */
  lemma DropSound(regions: seq<Address>, pFree: Address -> Address, slots: Slots, chain: Address -> seq<Address>,
                  live: set<Address>, k: nat)
    requires AllSound(regions, pFree, slots, chain, live) && k < |regions|
    ensures AllSound(Without(regions, k), pFree, slots, chain, live)
  {
    forall r | r in Without(regions, k)
      ensures Sound(r, pFree(r), slots, chain(r), live)
    {
      WithoutKeeps(regions, k, r);
    }
  }

  // ---- Giving back all regions that look empty ----

  ghost predicate SeemsUnused(r: Address, slots: Slots) {
    IsRegion(r) && LooksEmpty(r, slots)
  }

  /** Exactly the regions with trampolines that are handed out are left. */
  ghost predicate KeptUsed(was: seq<Address>, now: seq<Address>, live: set<Address>) {
    (forall r | r in now :: r in was) && forall r | r in was :: r in now <==> HasLive(r, live)
  }

  /** Of the listed regions, those that look empty are gone, as far as the first k that are left. */
  ghost predicate Sifted(was: seq<Address>, now: seq<Address>, slots: Slots, k: nat) {
    && k <= |now|
    && (forall j | 0 <= j < k :: !SeemsUnused(now[j], slots))
    && (forall r | r in now :: r in was)
    && (forall r | r in was && r !in now :: SeemsUnused(r, slots))
  }

  lemma SiftKeep(was: seq<Address>, now: seq<Address>, slots: Slots, k: nat)
    requires k < |now| && Sifted(was, now, slots, k) && !SeemsUnused(now[k], slots)
    ensures Sifted(was, now, slots, k + 1)
  {
  }

  lemma SiftDrop(was: seq<Address>, now: seq<Address>, slots: Slots, k: nat)
    requires k < |now| && Sifted(was, now, slots, k) && SeemsUnused(now[k], slots)
    ensures Sifted(was, Without(now, k), slots, k)
  {
    forall r
      ensures r in Without(now, k) ==> r in now
      ensures r in now ==> r in Without(now, k) || r == now[k]
    {
      WithoutKeeps(now, k, r);
    }
  }

  /** Then every trampoline handed out still belongs to a listed region exactly if none is in a region that looks
      empty. */
  lemma SiftedBelong(was: seq<Address>, now: seq<Address>, slots: Slots, live: set<Address>)
    requires AllBelong(was, live) && Sifted(was, now, slots, |now|)
    ensures AllBelong(now, live) <==> forall t | t in live :: !SeemsUnused(RegionOf(t), slots)
  {
    forall t | t in live
      ensures Belongs(now, t) <==> !SeemsUnused(RegionOf(t), slots)
    {
      assert Belongs(was, t);
      if RegionOf(t) in now {
        var j :| 0 <= j < |now| && now[j] == RegionOf(t);
      }
    }
  }

  /** Where trampolines go on to code outside their region, exactly the regions without trampolines are gone. */
  lemma SiftedUnused(was: seq<Address>, now: seq<Address>, pFree: Address -> Address, slots: Slots,
                     chain: Address -> seq<Address>, live: set<Address>)
    requires AllSound(was, pFree, slots, chain, live) && AllBelong(was, live) && Sifted(was, now, slots, |now|)
    requires forall t | t in live :: !Stays(RegionOf(t), slots, t)
    ensures AllBelong(now, live)
    ensures forall r | r in was :: r in now <==> HasLive(r, live)
  {
    forall r | r in was
      ensures SeemsUnused(r, slots) <==> !HasLive(r, live)
      ensures r in now ==> !SeemsUnused(r, slots)
    {
      EmptyIsUnused(was, pFree, slots, chain, live, r);
      if r in now {
        var j :| 0 <= j < |now| && now[j] == r;
      }
    }
    forall t | t in live
      ensures !SeemsUnused(RegionOf(t), slots)
    {
      assert Belongs(was, t);
    }
    SiftedBelong(was, now, slots, live);
  }
}
