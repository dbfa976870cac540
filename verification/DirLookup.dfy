/** sqfs_dir_lookup finds an entry exactly if the directory has it. */
module DirLookup {
  import opened Prelude
  import opened Dir
  import opened DirListing

  /** The order of directory entries: by their bytes, a prefix first. */
  predicate Less(a: seq<Byte>, b: seq<Byte>) {
    if b == [] then false
    else if a == [] then true
    else if a[0] != b[0] then a[0] < b[0]
    else Less(a[1..], b[1..])
  }

  predicate NoNul(a: seq<Byte>) {
    forall i | 0 <= i < |a| :: a[i] != 0
  }

  /** strncmp up to the length of the name looked for, with the length tests beside it, decides that
      order, also when one of the two is a prefix of the other. */
  lemma {:induction false} StrNCmpOrder(a: seq<Byte>, name: seq<Byte>)
    requires NoNul(a) && NoNul(name)
    ensures StrNCmp(a, name, |name|) < 0 <==> Less(a, name)
    ensures StrNCmp(a, name, |name|) == 0 && |a| == |name| <==> a == name
    ensures Beyond(a, name) <==> Less(name, a)
    ensures StrNCmp(a, name, |name|) == 0 ==> |name| <= |a|
  {
    if a != [] && name != [] && a[0] == name[0] {
      StrNCmpOrder(a[1..], name[1..]);
      assert a == name <==> a[1..] == name[1..] by {
        if a[1..] == name[1..] {
          assert a == [a[0]] + a[1..] && name == [name[0]] + name[1..];
        }
      }
    }
  }

  lemma {:induction false} LessAsymmetric(a: seq<Byte>, b: seq<Byte>)
    requires Less(a, b)
    ensures !Less(b, a) && a != b
  {
    if a != [] && a[0] == b[0] {
      LessAsymmetric(a[1..], b[1..]);
    }
  }

  /** Directory entries are sorted by name, and names are C strings. */
  ghost predicate Sorted(es: seq<Dirent>) {
    && (forall i | 0 <= i < |es| :: NoNul(es[i].name))
    && (forall i, j | 0 <= i < j < |es| :: Less(es[i].name, es[j].name))
  }

  /** The entry with a name, if there is one. */
  function Named(es: seq<Dirent>, name: seq<Byte>): (r: Option<Dirent>)
    ensures r.Some? ==> r.value in es && r.value.name == name
    ensures r.None? ==> forall e | e in es :: e.name != name
  {
    if es == [] then None
    else if es[0].name == name then Some(es[0])
    else Named(es[1..], name)
  }

  lemma {:induction false} NamedBehind(es: seq<Dirent>, k: nat, name: seq<Byte>)
    requires k <= |es| && forall i | 0 <= i < k :: es[i].name != name
    ensures Named(es, name) == Named(es[k..], name)
    decreases k
  {
    if k == 0 {
      assert es[0..] == es;
    } else {
      NamedBehind(es[1..], k - 1, name);
      assert es[1..][k - 1..] == es[k..];
    }
  }

  /** No entry before one that is not beyond the name has that name. */
  lemma NotBefore(es: seq<Dirent>, k: nat, name: seq<Byte>)
    requires Sorted(es) && NoNul(name) && k < |es| && !Beyond(es[k].name, name)
    ensures forall i | 0 <= i < k :: es[i].name != name
  {
    StrNCmpOrder(es[k].name, name);
  }

  /** No entry behind one that is beyond the name has that name. */
  lemma NotBehind(es: seq<Dirent>, name: seq<Byte>)
    requires Sorted(es) && NoNul(name) && es != [] && Less(name, es[0].name)
    ensures Named(es, name) == None
  {
    LessAsymmetric(name, es[0].name);
    forall e | e in es
      ensures e.name != name
    {
      var i :| 0 <= i < |es| && es[i] == e;
      if i > 0 {
        assert Less(es[0].name, es[i].name);
      }
    }
  }

  lemma SortedTail(es: seq<Dirent>, k: nat)
    requires Sorted(es) && k <= |es|
    ensures Sorted(es[k..])
  {
  }

  /** Scanning until the order is at least zero finds the entry, or shows that there is none. */
  lemma {:induction false} SearchFinds(src: Source, d: Stream, p: Pos, name: seq<Byte>)
    requires Ends(src) && Steps(d) && Reads(src, d) && Listing(d, p).Some?
    requires Sorted(Listing(d, p).value) && NoNul(name)
    ensures Search(src, Stand(d, p), name) == Ok(Named(Listing(d, p).value, name))
    decreases d.size - p.offset
  {
    if d.step(p).Yields? {
      var e, next, es := d.step(p).entry, d.step(p).next, Listing(d, p).value;
      assert Moves(d.size, p, d.step(p)) && es[0] == e && es[1..] == Listing(d, next).value;
      StrNCmpOrder(e.name, name);
      if StrNCmp(e.name, name, |name|) < 0 {
        SortedTail(es, 1);
        SearchFinds(src, d, next, name);
        LessAsymmetric(e.name, name);
      } else if e.name != name {
        NotBehind(es, name);
      }
    }
  }

  /** sqfs_dir_lookup on a sorted directory is a search of all its entries: neither jumping through
      the index nor stopping early misses one. */
  lemma LookupExact(src: Source, table: nat, ino: DirInode, d: Stream, es: seq<Dirent>, name: seq<Byte>)
    requires IsDirectory(src, table, ino, d, es) && Sorted(es) && NoNul(name)
    ensures LookupAt(src, table, ino, name) == Ok(Named(es, name))
  {
    var k := ForwardHeaderLands(src, table, ino, d, es, ToName(name));
    if k > 0 {
      NotBefore(es, k, name);
    }
    NamedBehind(es, k, name);
    ListingAfter(d, START, k);
    SameHeader(d, After(d, START, k), 0);
    SortedTail(es, k);
    SearchFinds(src, d, Pos(After(d, START, k).offset, Header(0, 0, 0)), name);
  }
}
