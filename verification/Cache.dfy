/** The fixed-size cache of src/cache.c: linear search, first-in first-out eviction. */
module SlotCache {
  import opened Prelude

  /** sqfs_cache_entry_hdr and the entry behind it. A calloc'ed slot is invalid with key 0. */
  datatype Slot<+P> = Slot(valid: bool, key: nat, entry: P)

  /** What a lookup found: a filled slot, a slot for the caller to fill (with the entry it evicted),
      or a slot that carries the key but was never filled, where the C code asserts. */
  datatype Lookup<+P> = Hit(slot: nat) | Fresh(slot: nat, evicted: Option<P>) | Abort

  ghost predicate HasKey<P>(slots: seq<Slot<P>>, key: nat) {
    exists i :: 0 <= i < |slots| && slots[i].key == key
  }

  /** The first slot with `key` was taken for it but never marked valid. */
  ghost predicate Poisoned<P>(slots: seq<Slot<P>>, key: nat) {
    exists i :: 0 <= i < |slots| && slots[i].key == key && !slots[i].valid &&
                forall j | 0 <= j < i :: slots[j].key != key
  }

  /** No slot is waiting to be filled, apart from untouched ones. */
  ghost predicate Clean<P>(slots: seq<Slot<P>>) {
    forall i | 0 <= i < |slots| :: slots[i].valid || slots[i].key == 0
  }

  /** Besides, a filled slot has the key of untouched ones only once there are none. */
  ghost predicate Settled<P>(slots: seq<Slot<P>>) {
    Clean(slots) &&
    forall i, j | 0 <= i < |slots| && 0 <= j < |slots| && slots[i].valid && slots[i].key == 0 :: slots[j].valid
  }

  /** The first untouched slot. */
  lemma {:induction false} FirstUntouched<P>(slots: seq<Slot<P>>, i: nat) returns (k: nat)
    requires i < |slots| && !slots[i].valid
    ensures k <= i && !slots[k].valid && forall j | 0 <= j < k :: slots[j].valid
  {
    if forall j | 0 <= j < i :: slots[j].valid {
      k := i;
    } else {
      var j :| 0 <= j < i && !slots[j].valid;
      k := FirstUntouched(slots, j);
    }
  }

  /** A lookup of key 0 asserts exactly if an untouched slot comes before any that holds that key; in a settled
      cache, exactly if any slot is untouched. */
  lemma ZeroPoisoned<P>(slots: seq<Slot<P>>)
    requires Clean(slots)
    ensures Poisoned(slots, 0) <==>
            exists i | 0 <= i < |slots| ::
              !slots[i].valid && forall j | 0 <= j < i :: !(slots[j].valid && slots[j].key == 0)
    ensures Settled(slots) ==> (Poisoned(slots, 0) <==> exists i | 0 <= i < |slots| :: !slots[i].valid)
  {
    if i: nat :| i < |slots| && !slots[i].valid && forall j | 0 <= j < i :: !(slots[j].valid && slots[j].key == 0) {
      var k := FirstUntouched(slots, i);
      assert slots[k].key == 0;
    }
    if Settled(slots) && exists i | 0 <= i < |slots| :: !slots[i].valid {
      var i: nat :| i < |slots| && !slots[i].valid;
      var k := FirstUntouched(slots, i);
      assert slots[k].key == 0;
    }
  }

  lemma CleanNotPoisoned<P>(slots: seq<Slot<P>>, key: nat)
    requires Clean(slots) && key != 0
    ensures !Poisoned(slots, key)
  {
  }

  /** A miss that is never filled, as after a failed read, makes the next lookup of that key assert,
      although the interface promises that a lookup always succeeds. */
  lemma MissWithoutFillPoisons<P>(slots: seq<Slot<P>>, at: nat, key: nat, entry: P)
    requires at < |slots| && !HasKey(slots, key)
    ensures Poisoned(slots[at := Slot(false, key, entry)], key)
  {
    assert slots[at := Slot(false, key, entry)][at].key == key;
  }

  class Cache<P> {
    const slots: array<Slot<P>>
    var next: nat  // next slot to evict

    ghost predicate Valid()
      reads this
    {
      next < slots.Length
    }

    constructor (count: nat, zero: P)
      requires 0 < count
      ensures Valid() && fresh(slots) && slots.Length == count
      ensures forall i | 0 <= i < count :: slots[i] == Slot(false, 0, zero)
    {
      slots := new Slot<P>[count](_ => Slot(false, 0, zero));
      next := 0;
    }

    /** sqfs_cache_get, with the disposal of an evicted entry left to the caller. */
    method Get(key: nat) returns (r: Lookup<P>)
      requires Valid()
      modifies this`next, slots
      ensures Valid()
      ensures r.Abort? <==> Poisoned(old(slots[..]), key)
      ensures r.Fresh? <==> !HasKey(old(slots[..]), key)
      ensures r.Hit? ==>
                && r.slot < slots.Length && slots[r.slot].valid && slots[r.slot].key == key
      ensures !r.Fresh? ==> slots[..] == old(slots[..]) && next == old(next)
      ensures r.Fresh? ==>
                && r.slot == old(next)
                && next == (old(next) + 1) % slots.Length
                && r.evicted == (if old(slots[next].valid) then Some(old(slots[next].entry)) else None)
                && slots[..] == old(slots[..])[old(next) := Slot(false, key, old(slots[next].entry))]
    {
      var i := 0;
      while i < slots.Length
        invariant 0 <= i <= slots.Length
        invariant forall j | 0 <= j < i :: slots[j].key != key
      {
        if slots[i].key == key {
          if slots[i].valid {
            return Hit(i);
          }
          return Abort;
        }
        i := i + 1;
      }
      i := next;
      next := (next + 1) % slots.Length;
      var victim := slots[i];
      slots[i] := Slot(false, key, victim.entry);
      return Fresh(i, if victim.valid then Some(victim.entry) else None);
    }

    /** The caller's writes to a fresh entry followed by sqfs_cache_entry_mark_valid. */
    method Fill(slot: nat, entry: P)
      requires Valid() && slot < slots.Length && !slots[slot].valid
      modifies slots
      ensures slots[..] == old(slots[..])[slot := Slot(true, old(slots[slot].key), entry)]
    {
      slots[slot] := Slot(true, slots[slot].key, entry);
    }
  }
}
