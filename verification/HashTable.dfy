/** The table of src/hash.c: an array of chains, changed in place. */
module HashTable {
  import opened Prelude
  import opened Hash

  /** The chain of a key in a table of `cap` chains. */
  function Mask(cap: nat): (slot: Slot)
    requires 0 < cap
    ensures forall k {:trigger slot(k)} :: slot(k) < cap
    ensures forall k {:trigger And(k, cap - 1)} :: slot(k) == And(k, cap - 1)
  {
    (k: nat) => And(k, cap - 1)
  }

  /** `V` is what is kept for a key; `m` is the map the table stands for. */
  class Table<V(!new)> {
    var buckets: array<Chain<V>>
    var size: nat
    ghost var m: map<nat, V>

    ghost predicate Valid()
      reads this, buckets
    {
      && 0 < buckets.Length && IsPow2(buckets.Length)
      && size == |m|
      && Holds(buckets[..], Mask(buckets.Length), m)
    }

    /** Adding never leaves more entries than chains. */
    ghost predicate Roomy()
      reads this
    {
      size <= buckets.Length
    }

    constructor (capacity: nat)
      requires capacity == 0 || IsPow2(capacity)
      ensures 0 < capacity ==> Valid()
      ensures fresh(buckets) && buckets.Length == capacity && m == map[] && size == 0
    {
      buckets := new Chain<V>[capacity](_ => []);
      size := 0;
      m := map[];
      new;
      if 0 < capacity {
        HoldsNothing<V>(buckets[..], Mask(capacity));
      }
    }

    /** sqfs_hash_init: fails for a capacity that is not a power of two, but for 0, which leaves a table without
        chains that no key can be looked up in. */
    static method Init(initial: nat) returns (r: Option<Table<V>>)
      ensures r.Some? <==> initial == 0 || IsPow2(initial)
      ensures r.Some? ==> fresh(r.value) && fresh(r.value.buckets) && (r.value.Valid() <==> initial != 0)
      ensures r.Some? ==> r.value.m == map[] && r.value.buckets.Length == initial
    {
      if 0 < initial {
        PowerTest(initial);
      }
      if And(initial, if initial == 0 then 0xffff_ffff_ffff_ffff else initial - 1) != 0 {
        return None;
      }
      var t := new Table<V>(initial);
      return Some(t);
    }

    /** Walks a chain to the entry with a key. */
    static method Walk(c: Chain<V>, k: nat) returns (j: nat)
      ensures j <= |c| && (j < |c| ==> c[j].0 == k && Find(c, k) == Some(c[j].1))
      ensures j == |c| ==> Find(c, k) == None
    {
      j := 0;
      while j < |c| && c[j].0 != k
        invariant j <= |c| && Find(c, k) == Find(c[j..], k)
      {
        assert c[j..][1..] == c[j + 1..];
        j := j + 1;
      }
    }

    /** sqfs_hash_get. */
    method Get(k: nat) returns (r: Option<V>)
      requires Valid()
      ensures r == if k in m then Some(m[k]) else None
    {
      var c := buckets[And(k, buckets.Length - 1)];
      FindHolds(buckets[..], Mask(buckets.Length), m, k);
      var j := Walk(c, k);
      r := if j < |c| then Some(c[j].1) else None;
    }

    /** A write through the pointer that sqfs_hash_get returns. */
    method Set(k: nat, v: V)
      requires Valid() && k in m
      modifies this`m, buckets
      ensures Valid() && m == old(m)[k := v]
    {
      var i := And(k, buckets.Length - 1);
      FindHolds(buckets[..], Mask(buckets.Length), m, k);
      var c := buckets[i];
      var j := Walk(c, k);
      SetHolds(buckets[..], Mask(buckets.Length), m, k, j, v);
      ghost var was := buckets[..];
      buckets[i] := c[j := (k, v)];
      assert buckets[..] == was[i := c[j := (k, v)]];
      m := m[k := v];
    }

    /** sqfs_hash_add_internal, with a key that is not there yet. */
    method AddInternal(k: nat, v: V)
      requires Valid() && k !in m
      modifies this`m, this`size, buckets
      ensures Valid() && m == old(m)[k := v] && size == old(size) + 1
    {
      var i := And(k, buckets.Length - 1);
      AddHolds(buckets[..], Mask(buckets.Length), m, k, v);
      ghost var was := buckets[..];
      buckets[i] := [(k, v)] + buckets[i];
      assert buckets[..] == was[i := [(k, v)] + was[i]];
      size := size + 1;
      m := m[k := v];
    }

    /** sqfs_hash_remove. */
    method Remove(k: nat)
      requires Valid()
      modifies this`m, this`size, buckets
      ensures Valid() && m == old(m) - {k} && size <= old(size)
    {
      var i := And(k, buckets.Length - 1);
      FindHolds(buckets[..], Mask(buckets.Length), m, k);
      var c := buckets[i];
      var j := Walk(c, k);
      if j < |c| {
        Unlink(k, i, j);
      } else {
        assert m - {k} == m;
      }
    }

    /** Takes entry j out of the chain of a key. */
    method Unlink(k: nat, i: nat, j: nat)
      requires Valid() && i == And(k, buckets.Length - 1) && j < |buckets[i]| && buckets[i][j].0 == k
      modifies this`m, this`size, buckets
      ensures Valid() && m == old(m) - {k} && size == old(size) - 1
    {
      RemoveHolds(buckets[..], Mask(buckets.Length), m, k, j);
      ghost var was := buckets[..];
      buckets[i] := Without(buckets[i], j);
      assert buckets[..] == was[i := Without(was[i], j)];
      size := size - 1;
      m := m - {k};
    }

    /** sqfs_hash_init on the table's own fields. */
    method Reset(capacity: nat)
      requires 0 < capacity && IsPow2(capacity)
      modifies this
      ensures Valid() && fresh(buckets) && buckets.Length == capacity && m == map[] && size == 0
    {
      buckets := new Chain<V>[capacity](_ => []);
      size := 0;
      m := map[];
      HoldsNothing<V>(buckets[..], Mask(capacity));
    }

    /** The inner loop of sqfs_hash_double: adds the entries of the old chain i. */
    method CopyChain(ob: array<Chain<V>>, i: nat, ghost was: map<nat, V>)
      requires Valid() && ob != buckets && i < ob.Length
      requires Holds(ob[..], Mask(ob.Length), was) && Copied(ob[..], was, m, i, 0)
      modifies this`m, this`size, buckets
      ensures Valid() && Copied(ob[..], was, m, i + 1, 0)
    {
      ghost var bs := ob[..];
      var c := ob[i];
      var j: nat := 0;
      while j < |c|
        invariant j <= |c| && Valid() && ob[..] == bs && Copied(bs, was, m, i, j)
      {
        CopyOne(bs, Mask(ob.Length), was, m, i, j);
        AddInternal(c[j].0, c[j].1);
        j := j + 1;
      }
      CopyChainEnds(bs, was, m, i);
    }

    /** sqfs_hash_double: every lookup is preserved. */
    method Double()
      requires Valid()
      modifies this
      ensures Valid() && fresh(buckets) && buckets.Length == 2 * old(buckets.Length)
      ensures m == old(m) && size == old(size)
    {
      ghost var was := m;
      var ob := buckets;
      ghost var bs := ob[..];
      Reset(2 * ob.Length);
      CopyStarts(bs, was);
      var i: nat := 0;
      while i < ob.Length
        invariant i <= ob.Length && Valid() && fresh(buckets) && buckets.Length == 2 * ob.Length
        invariant ob[..] == bs && Copied(bs, was, m, i, 0)
      {
        CopyChain(ob, i, was);
        i := i + 1;
      }
      CopyEnds(bs, Mask(ob.Length), was, m);
    }

    /** sqfs_hash_add, for a key that is not there yet: the table doubles first if it is full. */
    method Add(k: nat, v: V)
      requires Valid() && Roomy() && k !in m
      modifies this, buckets
      ensures Valid() && Roomy() && (buckets == old(buckets) || fresh(buckets))
      ensures m == old(m)[k := v] && size == old(size) + 1
      ensures buckets.Length == if old(size) == old(buckets.Length) then 2 * old(buckets.Length)
              else old(buckets.Length)
    {
      if size >= buckets.Length {
        Double();
      }
      AddInternal(k, v);
    }
  }
}
