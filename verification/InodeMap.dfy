/** Inode numbers of the low-level file system: the translations between FUSE's and SquashFS's, and the
    counted cache that remembers where an inode is.
    A clause `P() == true` is proved as one fact, and not conjunct by conjunct, which keeps the proofs quick. */
module InodeMap {
  import opened Prelude
  import opened HashTable

  type Number = n: int | 0 <= n < 0x1_0000_0000

  const FUSE_ROOT_ID: Number := 1
  const SQFS_INODE_NONE := 1

  // ---- 64-bit inodes: the identity, but for the reserved numbers ----

  /** sqfs_ll_ino64_fuse. */
  function Fuse64(root: nat, id: nat): nat {
    if id == root then FUSE_ROOT_ID else if id == 0 then 2 else id
  }

  /** sqfs_ll_ino64_sqfs. */
  function Sqfs64(root: nat, i: nat): nat {
    if i == FUSE_ROOT_ID then root else if i == 2 then 0 else i
  }

  /** An id comes back unless it is one of the two that no image uses. */
  lemma RoundTrip64(root: nat, id: nat)
    ensures Sqfs64(root, Fuse64(root, id)) == id <==> id == root || (id != 1 && id != 2)
  {
  }

  /** The root is inode 1 of FUSE, and no other id of an image is, nor is any FUSE's 0, which stands for none. */
  lemma RootIs1(root: nat, id: nat)
    ensures Fuse64(root, root) == 1 && Sqfs64(root, 1) == root
    ensures Fuse64(root, id) == 1 <==> id == root || id == SQFS_INODE_NONE
    ensures Fuse64(root, id) != 0
  {
  }

  // ---- 32-bit inodes: shifted by one, with root and zero moved ----

  /** Adding and subtracting one wrap around. */
  function Succ(n: Number): Number {
    if n == TWO32 - 1 then 0 else n + 1
  }

  function Pred(n: Number): Number {
    if n == 0 then TWO32 - 1 else n - 1
  }

  /** sqfs_ll_ino32_num2fuse. */
  function NumToFuse(root: Number, n: Number): Number {
    if n == root then FUSE_ROOT_ID else if n == 0 then Succ(root) else Succ(n)
  }

  /** sqfs_ll_ino32_fuse2num. */
  function FuseToNum(root: Number, i: Number): Number {
    if i == FUSE_ROOT_ID then root else if i == Succ(root) then 0 else Pred(i)
  }

  /** The two translations are inverse to each other on all 32-bit numbers. */
  lemma NumbersAreBijective(root: Number, n: Number)
    ensures FuseToNum(root, NumToFuse(root, n)) == n
    ensures NumToFuse(root, FuseToNum(root, n)) == n
  {
  }

  /** Inode 1 of FUSE is the root, and no other. */
  lemma RootNumberIs1(root: Number, n: Number)
    ensures NumToFuse(root, n) == 1 <==> n == root
  {
  }

  /** The number that FUSE takes for no inode is given out for exactly one inode, and only in a file
      system that uses the last number. */
  lemma NoneIsGiven(root: Number, n: Number)
    ensures NumToFuse(root, n) == 0 <==>
            if root == TWO32 - 1 then n == 0 else n == TWO32 - 1
  {
  }

  // ---- The counted cache ----

  /** sqfs_ll_inode_entry: the references, and a 48-bit id in two parts. */
  datatype Entry = Entry(refcount: Number, hi: nat, lo: nat)

  function Make(id: nat, refcount: Number): Entry {
    Entry(refcount, id / 0x1_0000 % TWO32, id % 0x1_0000)
  }

  /** IE_INODE. */
  function IdOf(e: Entry): nat {
    e.hi * 0x1_0000 + e.lo
  }

  /** The packed id is the id exactly if that has no more than 48 bits. */
  lemma PackedId(id: nat, refcount: Number)
    ensures IdOf(Make(id, refcount)) == id <==> id < 0x1_0000_0000_0000
  {
  }

  /** The cache of a map from numbers to entries: what sqfs_ll_ino32_register makes of it. */
  function Registered(m: map<nat, Entry>, n: Number, id: nat): map<nat, Entry> {
    if n in m then m[n := m[n].(refcount := Succ(m[n].refcount))] else m[n := Make(id, 1)]
  }

  /** And sqfs_ll_ino32_forget. */
  function Forgotten(m: map<nat, Entry>, n: Number, refs: nat): map<nat, Entry> {
    if n !in m then m
    else if m[n].refcount > refs then m[n := m[n].(refcount := m[n].refcount - refs)]
    else m - {n}
  }

  /** What sqfs_ll_ino32_sqfs resolves a FUSE inode to. */
  function Resolve(m: map<nat, Entry>, root: Number, rootId: nat, i: Number): nat {
    if i == FUSE_ROOT_ID then rootId
    else
      var n := FuseToNum(root, i);
      if n in m then IdOf(m[n]) else SQFS_INODE_NONE
  }

  class InodeMap {
    const root: Number
    const rootId: nat
    const icache: Table<Entry>

    ghost predicate Valid()
      reads this, icache, icache.buckets
    {
      icache.Valid() && icache.Roomy()
    }

    /** sqfs_ll_ino32_init. */
    constructor (root: Number, rootId: nat)
      ensures Valid() && fresh(icache) && fresh(icache.buckets)
      ensures this.root == root && this.rootId == rootId && icache.m == map[]
    {
      this.root, this.rootId := root, rootId;
      icache := new Table<Entry>(32);
    }

    /** sqfs_ll_ino32_sqfs. */
    method Sqfs(i: Number) returns (id: nat)
      requires Valid()
      ensures id == Resolve(icache.m, root, rootId, i)
      ensures i == 1 ==> id == rootId
    {
      if i == FUSE_ROOT_ID {
        return rootId;
      }
      var e := icache.Get(FuseToNum(root, i));
      id := if e.Some? then IdOf(e.value) else SQFS_INODE_NONE;
    }

    /** sqfs_ll_ino32_register: counts a lookup of the inode `n`, which is at `id`. */
    method Register(n: Number, id: nat) returns (i: Number)
      requires Valid()
      modifies icache, icache.buckets
      ensures Valid() && (icache.buckets == old(icache.buckets) || fresh(icache.buckets))
      ensures icache.m == Registered(old(icache.m), n, id)
      ensures i == NumToFuse(root, n)
    {
      Count(n, id);
      i := NumToFuse(root, n);
    }

    /** The part of it that changes the cache. */
    method Count(n: Number, id: nat)
      requires Valid()
      modifies icache, icache.buckets
      ensures Valid() && (icache.buckets == old(icache.buckets) || fresh(icache.buckets))
      ensures icache.m == Registered(old(icache.m), n, id)
    {
      var e := icache.Get(n);
      if e.Some? {
        icache.Set(n, e.value.(refcount := Succ(e.value.refcount)));
      } else {
        icache.Add(n, Make(id, 1));
      }
    }

    /** sqfs_ll_ino32_forget: drops `refs` lookups of a FUSE inode. */
    method Forget(i: Number, refs: nat)
      requires Valid()
      modifies icache, icache.buckets
      ensures Valid() && icache.buckets == old(icache.buckets)
      ensures icache.m == Forgotten(old(icache.m), FuseToNum(root, i), refs)
    {
      Drop(FuseToNum(root, i), refs);
    }

    /** The part of it that changes the cache. */
    method Drop(n: Number, refs: nat)
      requires Valid()
      modifies icache, icache.buckets
      ensures Valid() == true && icache.buckets == old(icache.buckets)
      ensures icache.m == Forgotten(old(icache.m), n, refs)
    {
      ghost var was := icache.m;
      var e := icache.Get(n);
      if e.None? {
        assert Forgotten(was, n, refs) == was;
      } else if e.value.refcount > refs {
        var less := e.value.(refcount := e.value.refcount - refs);
        assert Forgotten(was, n, refs) == was[n := less];
        icache.Set(n, less);
      } else {
        assert Forgotten(was, n, refs) == was - {n};
        icache.Remove(n);
      }
    }
  }

  // ---- Runs ----

  /** What FUSE asks for: a lookup of an inode number at an id, or forgetting lookups of a FUSE inode. */
  datatype Event = Lookup(n: Number, id: nat) | Forget(i: Number, refs: nat)

  function Happened(m: map<nat, Entry>, e: Event, root: Number): map<nat, Entry> {
    match e
    case Lookup(n, id) => Registered(m, n, id)
    case Forget(i, refs) => Forgotten(m, FuseToNum(root, i), refs)
  }

  /** The cache after a run. */
  function After(run: seq<Event>, root: Number): map<nat, Entry> {
    if run == [] then map[] else Happened(After(run[..|run| - 1], root), run[|run| - 1], root)
  }

  /** The lookups of number n that one more event leaves. */
  function Counted(count: nat, e: Event, root: Number, n: Number): nat {
    match e
    case Lookup(k, _) => if k == n then count + 1 else count
    case Forget(i, refs) => if FuseToNum(root, i) != n then count else if count > refs then count - refs else 0
  }

  /** The lookups of number n that a run has not forgotten again. */
  function Outstanding(run: seq<Event>, root: Number, n: Number): nat {
    if run == [] then 0 else Counted(Outstanding(run[..|run| - 1], root, n), run[|run| - 1], root, n)
  }

  /** All lookups of a number are of the same inode. */
  ghost predicate SameId(run: seq<Event>, n: Number, id: nat) {
    forall k | 0 <= k < |run| && run[k].Lookup? && run[k].n == n :: run[k].id == id
  }

  /** Forgetting lookups of n that leaves some outstanding leaves some in the 32-bit count, too. */
  ghost predicate Spares(before: nat, e: Event, root: Number, n: Number) {
    e.Forget? && FuseToNum(root, e.i) == n && before > e.refs ==> before % TWO32 > e.refs
  }

  ghost predicate NeverShort(run: seq<Event>, root: Number, n: Number) {
    forall k | 0 <= k < |run| :: Spares(Outstanding(run[..k], root, n), run[k], root, n)
  }

  /** The cache knows of n what it should: whether a lookup is outstanding, where the inode is, and the count in 32
      bits. */
  ghost predicate Knows(m: map<nat, Entry>, count: nat, n: Number, id: nat) {
    if count > 0 then n in m && m[n] == Make(id, count % TWO32) else n !in m
  }

  lemma InitKeeps(run: seq<Event>, root: Number, n: Number, id: nat)
    requires run != [] && SameId(run, n, id)
    ensures var init := run[..|run| - 1];
            && SameId(init, n, id)
            && (NeverShort(run, root, n) <==>
                NeverShort(init, root, n) && Spares(Outstanding(init, root, n), run[|run| - 1], root, n))
  {
    var init := run[..|run| - 1];
    forall k | 0 <= k <= |init|
      ensures init[..k] == run[..k]
    {
    }
    if NeverShort(init, root, n) && Spares(Outstanding(init, root, n), run[|run| - 1], root, n) {
      forall k | 0 <= k < |run|
        ensures Spares(Outstanding(run[..k], root, n), run[k], root, n)
      {
        assert k < |init| ==> Spares(Outstanding(init[..k], root, n), init[k], root, n);
      }
    }
    if NeverShort(run, root, n) {
      forall k | 0 <= k < |init|
        ensures Spares(Outstanding(init[..k], root, n), init[k], root, n)
      {
        assert Spares(Outstanding(run[..k], root, n), run[k], root, n);
      }
    }
  }

  lemma {:induction false} RunCounts(run: seq<Event>, root: Number, n: Number, id: nat)
    requires SameId(run, n, id) && NeverShort(run, root, n)
    ensures Knows(After(run, root), Outstanding(run, root, n), n, id)
    decreases |run|
  {
    if run != [] {
      InitKeeps(run, root, n, id);
      RunCounts(run[..|run| - 1], root, n, id);
      EventCounts(After(run[..|run| - 1], root), Outstanding(run[..|run| - 1], root, n), run[|run| - 1], root, n, id);
    }
  }

  /** One event; when it falls short, the cache loses an inode with lookups outstanding. */
  lemma EventCounts(m: map<nat, Entry>, count: nat, e: Event, root: Number, n: Number, id: nat)
    requires Knows(m, count, n, id) && (e.Lookup? && e.n == n ==> e.id == id)
    ensures var now := Happened(m, e, root);
            if Spares(count, e, root, n) then Knows(now, Counted(count, e, root, n), n, id)
            else n !in now && Counted(count, e, root, n) > 0
  {
  }

  /** The cache knows whether a lookup of n is outstanding. */
  ghost predicate IsTrue(run: seq<Event>, root: Number, n: Number) {
    n in After(run, root) <==> Outstanding(run, root, n) > 0
  }

  ghost predicate StaysTrue(run: seq<Event>, root: Number, n: Number) {
    forall k | 0 <= k <= |run| :: IsTrue(run[..k], root, n)
  }

  lemma InitStaysTrue(run: seq<Event>, root: Number, n: Number)
    requires run != []
    ensures StaysTrue(run, root, n) <==> StaysTrue(run[..|run| - 1], root, n) && IsTrue(run, root, n)
  {
    var init := run[..|run| - 1];
    assert run[..|run|] == run;
    forall k | 0 <= k <= |init|
      ensures IsTrue(init[..k], root, n) <==> IsTrue(run[..k], root, n)
    {
      assert init[..k] == run[..k];
    }
  }

  /** At any time of a run the cache knows whether a lookup of n is outstanding, exactly if forgetting never falls
      short in the 32-bit count; with fewer than 2^32 lookups outstanding it never does. */
  lemma {:induction false} RunIsTrue(run: seq<Event>, root: Number, n: Number, id: nat)
    requires SameId(run, n, id)
    ensures StaysTrue(run, root, n) <==> NeverShort(run, root, n)
    decreases |run|
  {
    if run == [] {
      assert run[..0] == [];
    } else {
      var init := run[..|run| - 1];
      InitKeeps(run, root, n, id);
      InitStaysTrue(run, root, n);
      RunIsTrue(init, root, n, id);
      if NeverShort(init, root, n) {
        RunCounts(init, root, n, id);
        EventCounts(After(init, root), Outstanding(init, root, n), run[|run| - 1], root, n, id);
      }
    }
  }

  lemma FewNeverShort(run: seq<Event>, root: Number, n: Number)
    requires forall k | 0 <= k < |run| :: Outstanding(run[..k], root, n) < TWO32
    ensures NeverShort(run, root, n)
  {
  }

  /** After any such run, an inode resolves to where it was looked up if a lookup of it is outstanding, and to the 1
      that stands for none otherwise; the root does to where it is, whatever has been looked up. */
  lemma RunResolves(run: seq<Event>, root: Number, rootId: nat, n: Number, id: nat)
    requires n == root || (SameId(run, n, id) && NeverShort(run, root, n) && id < 0x1_0000_0000_0000)
    ensures Resolve(After(run, root), root, rootId, NumToFuse(root, n)) ==
            if n == root then rootId else if Outstanding(run, root, n) > 0 then id else 1
  {
    RootNumberIs1(root, n);
    if n != root {
      RunCounts(run, root, n, id);
      NumbersAreBijective(root, n);
      PackedId(id, 1);
    }
  }

  /** With 2^32 lookups outstanding the count is zero again, and forgetting a single one makes the inode unknown. */
  lemma CountWraps(run: seq<Event>, root: Number, n: Number, id: nat)
    requires SameId(run, n, id) && NeverShort(run, root, n) && Outstanding(run, root, n) == TWO32
    ensures var more := run + [Forget(NumToFuse(root, n), 1)];
            Outstanding(more, root, n) == TWO32 - 1 && n !in After(more, root)
  {
    RunCounts(run, root, n, id);
    NumbersAreBijective(root, n);
    var e := Forget(NumToFuse(root, n), 1);
    assert (run + [e])[..|run|] == run;
    EventCounts(After(run, root), TWO32, e, root, n, id);
  }
}
