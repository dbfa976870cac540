/** sqfs_hash: a chained table that doubles when it is full. */
module Hash {
  import opened Prelude

  // ---- Powers of two and masks ----

  /** Bitwise and. */
  function And(a: nat, b: nat): (r: nat)
    ensures r <= a && r <= b
  {
    if a == 0 || b == 0 then 0 else 2 * And(a / 2, b / 2) + (if a % 2 == 1 && b % 2 == 1 then 1 else 0)
  }

  predicate IsPow2(n: nat) {
    n == 1 || (n > 1 && n % 2 == 0 && IsPow2(n / 2))
  }

  /** The test that sqfs_hash_init makes of its capacity. */
  lemma {:induction false} PowerTest(n: nat)
    requires 0 < n
    ensures And(n, n - 1) == 0 <==> IsPow2(n)
  {
    if n > 1 {
      if n % 2 == 0 {
        PowerTest(n / 2);
        assert (n - 1) / 2 == n / 2 - 1;
      } else {
        AndSelf(n / 2);
        assert (n - 1) / 2 == n / 2;
      }
    }
  }

  lemma {:induction false} AndSelf(n: nat)
    ensures And(n, n) == n
  {
    if n > 0 {
      AndSelf(n / 2);
    }
  }

  /** Masking with a power of two less one is the remainder. */
  lemma {:induction false} MaskIsModulus(k: nat, cap: nat)
    requires IsPow2(cap)
    ensures And(k, cap - 1) == k % cap
  {
    if cap == 1 {
    } else if k == 0 {
      Remainder(0, cap, 0, 0);
    } else {
      MaskIsModulus(k / 2, cap / 2);
      MaskStep(k, cap / 2);
      HalfModulus(k, cap / 2);
    }
  }

  lemma MaskStep(k: nat, half: nat)
    requires 0 < k && 0 < half
    ensures And(k, 2 * half - 1) == 2 * And(k / 2, half - 1) + k % 2
  {
    assert (2 * half - 1) / 2 == half - 1 && (2 * half - 1) % 2 == 1;
  }

  lemma HalfModulus(k: nat, half: nat)
    requires 0 < half
    ensures k % (2 * half) == 2 * (k / 2 % half) + k % 2
  {
    var q, r := k / 2 / half, k / 2 % half;
    assert k / 2 == q * half + r;
    assert k == q * (2 * half) + (2 * r + k % 2);
    Remainder(k, 2 * half, q, 2 * r + k % 2);
  }

  // ---- Chains ----

  type Chain<V> = seq<(nat, V)>

  predicate HasKey<V>(c: Chain<V>, k: nat) {
    exists j | 0 <= j < |c| :: c[j].0 == k
  }

  /** The first entry of a chain with a key. */
  function Find<V>(c: Chain<V>, k: nat): (r: Option<V>)
    ensures r.Some? <==> HasKey(c, k)
    ensures r.Some? ==> (k, r.value) in c
  {
    if c == [] then None
    else if c[0].0 == k then Some(c[0].1)
    else
      assert forall j | 0 < j < |c| :: c[j] == c[1..][j - 1];
      Find(c[1..], k)
  }

  /** The entries of all chains. */
  function Total<V>(bs: seq<Chain<V>>): nat {
    if bs == [] then 0 else |bs[0]| + Total(bs[1..])
  }

  lemma {:induction false} TotalUpdate<V>(bs: seq<Chain<V>>, i: nat, c: Chain<V>)
    requires i < |bs|
    ensures Total(bs[i := c]) == Total(bs) - |bs[i]| + |c|
  {
    if i == 0 {
      assert bs[0 := c][1..] == bs[1..];
    } else {
      TotalUpdate(bs[1..], i - 1, c);
      assert bs[i := c][1..] == bs[1..][i - 1 := c];
    }
  }

  lemma {:induction false} TotalEmpty<V>(bs: seq<Chain<V>>)
    requires forall i | 0 <= i < |bs| :: bs[i] == []
    ensures Total(bs) == 0
  {
    if bs != [] {
      TotalEmpty(bs[1..]);
    }
  }

  /** A hash function, as a value. */
  type Slot = nat -> nat

  /** Chain i of a table holds entries of `m`, each in its place and once. */
  ghost predicate Fits<V(!new)>(c: Chain<V>, i: nat, slot: Slot, m: map<nat, V>) {
    && (forall j | 0 <= j < |c| :: slot(c[j].0) == i && c[j].0 in m && m[c[j].0] == c[j].1)
    && (forall j, l | 0 <= j < l < |c| :: c[j].0 != c[l].0)
  }

  /** The chains hold exactly the map. */
  ghost predicate Holds<V(!new)>(bs: seq<Chain<V>>, slot: Slot, m: map<nat, V>) {
    && (forall k :: slot(k) < |bs|)
    && (forall i | 0 <= i < |bs| :: Fits(bs[i], i, slot, m))
    && (forall k | k in m :: HasKey(bs[slot(k)], k))
    && Total(bs) == |m|
  }

  lemma FindHolds<V(!new)>(bs: seq<Chain<V>>, slot: Slot, m: map<nat, V>, k: nat)
    requires Holds(bs, slot, m)
    ensures Find(bs[slot(k)], k) == if k in m then Some(m[k]) else None
  {
    assert Fits(bs[slot(k)], slot(k), slot, m);
  }

  lemma HoldsNothing<V(!new)>(bs: seq<Chain<V>>, slot: Slot)
    requires (forall k :: slot(k) < |bs|) && forall i | 0 <= i < |bs| :: bs[i] == []
    ensures Holds(bs, slot, map[])
  {
    TotalEmpty(bs);
  }

  /** Replacing the chain of a key, which alone changes in the map. */
  lemma ReplaceHolds<V(!new)>(bs: seq<Chain<V>>, slot: Slot, m: map<nat, V>, k: nat, c: Chain<V>, m2: map<nat, V>)
    requires Holds(bs, slot, m) && Fits(c, slot(k), slot, m2)
    requires |c| - |bs[slot(k)]| == |m2| - |m|
    requires forall x | x != k :: (x in m <==> x in m2) && (x in m ==> m[x] == m2[x])
    requires forall x | x in m2 && slot(x) == slot(k) :: HasKey(c, x)
    ensures Holds(bs[slot(k) := c], slot, m2)
  {
    var i := slot(k);
    var bs2 := bs[i := c];
    TotalUpdate(bs, i, c);
    forall a | 0 <= a < |bs2|
      ensures Fits(bs2[a], a, slot, m2)
    {
      assert Fits(bs[a], a, slot, m);
    }
    forall x | x in m2
      ensures HasKey(bs2[slot(x)], x)
    {
      if slot(x) != i {
        assert HasKey(bs[slot(x)], x);
      }
    }
  }

  /** A new key at the head of its chain. */
  lemma AddHolds<V(!new)>(bs: seq<Chain<V>>, slot: Slot, m: map<nat, V>, k: nat, v: V)
    requires Holds(bs, slot, m) && k !in m
    ensures Holds(bs[slot(k) := [(k, v)] + bs[slot(k)]], slot, m[k := v])
  {
    var c, m2 := [(k, v)] + bs[slot(k)], m[k := v];
    assert Fits(bs[slot(k)], slot(k), slot, m);
    assert Fits(c, slot(k), slot, m2);
    forall x | x in m2 && slot(x) == slot(k)
      ensures HasKey(c, x)
    {
      if x == k {
        assert c[0].0 == k;
      } else {
        var j :| 0 <= j < |bs[slot(x)]| && bs[slot(x)][j].0 == x;
        assert c[j + 1].0 == x;
      }
    }
    ReplaceHolds(bs, slot, m, k, c, m2);
  }

  function Without<V>(c: Chain<V>, j: nat): Chain<V>
    requires j < |c|
  {
    c[..j] + c[j + 1..]
  }

  lemma WithoutAt<V>(c: Chain<V>, j: nat)
    requires j < |c|
    ensures |Without(c, j)| == |c| - 1
    ensures forall a | 0 <= a < |c| - 1 :: Without(c, j)[a] == c[if a < j then a else a + 1]
  {
  }

  lemma WithoutFits<V(!new)>(c: Chain<V>, i: nat, slot: Slot, m: map<nat, V>, j: nat)
    requires Fits(c, i, slot, m) && j < |c|
    ensures Fits(Without(c, j), i, slot, m - {c[j].0})
  {
    WithoutAt(c, j);
  }

  lemma WithoutHas<V>(c: Chain<V>, j: nat, l: nat)
    requires j < |c| && l < |c| && l != j
    ensures HasKey(Without(c, j), c[l].0)
  {
    WithoutAt(c, j);
    assert Without(c, j)[if l < j then l else l - 1].0 == c[l].0;
  }

  /** Dropping the entry j of a chain drops its key from the map. */
  lemma RemoveHolds<V(!new)>(bs: seq<Chain<V>>, slot: Slot, m: map<nat, V>, k: nat, j: nat)
    requires Holds(bs, slot, m) && j < |bs[slot(k)]| && bs[slot(k)][j].0 == k
    ensures k in m && |m - {k}| == |m| - 1 && Holds(bs[slot(k) := Without(bs[slot(k)], j)], slot, m - {k})
  {
    var was, m2 := bs[slot(k)], m - {k};
    var c := Without(was, j);
    assert Fits(was, slot(k), slot, m);
    WithoutFits(was, slot(k), slot, m, j);
    assert m2.Keys == m.Keys - {k};
    forall x | x in m2 && slot(x) == slot(k)
      ensures HasKey(c, x)
    {
      var l: nat :| l < |bs[slot(x)]| && bs[slot(x)][l].0 == x;
      WithoutHas(was, j, l);
    }
    ReplaceHolds(bs, slot, m, k, c, m2);
  }

  /** Changing the value of entry j of a chain changes it in the map. */
  lemma SetHolds<V(!new)>(bs: seq<Chain<V>>, slot: Slot, m: map<nat, V>, k: nat, j: nat, v: V)
    requires Holds(bs, slot, m) && j < |bs[slot(k)]| && bs[slot(k)][j].0 == k
    ensures k in m && Holds(bs[slot(k) := bs[slot(k)][j := (k, v)]], slot, m[k := v])
  {
    var was, m2 := bs[slot(k)], m[k := v];
    var c := was[j := (k, v)];
    assert Fits(was, slot(k), slot, m);
    assert Fits(c, slot(k), slot, m2);
    forall x | x in m2 && slot(x) == slot(k)
      ensures HasKey(c, x)
    {
      var l :| 0 <= l < |bs[slot(x)]| && bs[slot(x)][l].0 == x;
      assert c[l].0 == x;
    }
    assert m2.Keys == m.Keys;
    ReplaceHolds(bs, slot, m, k, c, m2);
  }

  // ---- Copying all chains into another table ----

  /** `m` has the entries of the chains before chain i, and those of chain i before entry j. */
  ghost predicate Copied<V(!new)>(bs: seq<Chain<V>>, was: map<nat, V>, m: map<nat, V>, i: nat, j: nat) {
    && (forall k | k in m :: k in was && was[k] == m[k])
    && (forall a, l | 0 <= a < |bs| && 0 <= l < |bs[a]| :: bs[a][l].0 in m <==> (a < i || (a == i && l < j)))
  }

  lemma CopyStarts<V(!new)>(bs: seq<Chain<V>>, was: map<nat, V>)
    ensures Copied(bs, was, map[], 0, 0)
  {
  }

  lemma CopyOne<V(!new)>(bs: seq<Chain<V>>, slot: Slot, was: map<nat, V>, m: map<nat, V>, i: nat, j: nat)
    requires Holds(bs, slot, was) && i < |bs| && j < |bs[i]| && Copied(bs, was, m, i, j)
    ensures bs[i][j].0 !in m && Copied(bs, was, m[bs[i][j].0 := bs[i][j].1], i, j + 1)
  {
    var (k, v) := bs[i][j];
    assert Fits(bs[i], i, slot, was);
    forall a, l | 0 <= a < |bs| && 0 <= l < |bs[a]|
      ensures bs[a][l].0 == k <==> a == i && l == j
    {
      assert Fits(bs[a], a, slot, was);
    }
  }

  lemma CopyChainEnds<V(!new)>(bs: seq<Chain<V>>, was: map<nat, V>, m: map<nat, V>, i: nat)
    requires i < |bs| && Copied(bs, was, m, i, |bs[i]|)
    ensures Copied(bs, was, m, i + 1, 0)
  {
  }

  lemma CopyEnds<V(!new)>(bs: seq<Chain<V>>, slot: Slot, was: map<nat, V>, m: map<nat, V>)
    requires Holds(bs, slot, was) && Copied(bs, was, m, |bs|, 0)
    ensures m == was
  {
    forall k | k in was
      ensures k in m
    {
      assert HasKey(bs[slot(k)], k);
    }
    assert m.Keys == was.Keys;
  }

  // ---- A key that is there already ----

  /** What doubling makes of the entries of a chain: each is put in front of those before it. */
  function Prepended<V>(done: Chain<V>, c: Chain<V>): Chain<V>
    decreases |c|
  {
    if c == [] then done else Prepended([c[0]] + done, c[1..])
  }

  /** The last entry of a chain with a key. */
  function FindLast<V>(c: Chain<V>, k: nat): Option<V>
    decreases |c|
  {
    if c == [] then None
    else if FindLast(c[1..], k).Some? then FindLast(c[1..], k)
    else if c[0].0 == k then Some(c[0].1)
    else None
  }

  lemma {:induction false} PrependedFinds<V>(done: Chain<V>, c: Chain<V>, k: nat)
    ensures Find(Prepended(done, c), k) == if FindLast(c, k).Some? then FindLast(c, k) else Find(done, k)
    decreases |c|
  {
    if c != [] {
      PrependedFinds([c[0]] + done, c[1..], k);
      assert ([c[0]] + done)[1..] == done;
    }
  }

  /** Adding a key that is there already hides the old value, until the table is doubled: then the new value is still
      found exactly if it is the oldest one. */
  lemma AddedAgain<V>(c: Chain<V>, k: nat, v: V)
    requires Find(c, k).Some?
    ensures Find([(k, v)] + c, k) == Some(v)
    ensures Find(Prepended([], [(k, v)] + c), k) == Some(v) <==> FindLast(c, k) == Some(v)
  {
    assert ([(k, v)] + c)[1..] == c;
    LastIsThere(c, k);
    PrependedFinds([], [(k, v)] + c, k);
  }

  lemma {:induction false} LastIsThere<V>(c: Chain<V>, k: nat)
    ensures FindLast(c, k).Some? <==> Find(c, k).Some?
    decreases |c|
  {
    if c != [] {
      LastIsThere(c[1..], k);
    }
  }
}
