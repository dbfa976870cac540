/** sqfs_lookup_path_with_id: a path resolves, name by name, to what the directories on the way list. */
module PathLookup {
  import opened Prelude
  import opened Image
  import opened Blocks
  import opened Fs
  import opened Dir
  import opened DirListing
  import opened DirLookup
  import DirReader

  const SLASH: Byte := 47

  // ---- Paths ----

  function NameLength(path: seq<Byte>): (n: nat)
    ensures n <= |path| && SLASH !in path[..n] && (n < |path| ==> path[n] == SLASH)
  {
    if path == [] || path[0] == SLASH then 0 else 1 + NameLength(path[1..])
  }

  /** The names in a path; slashes in front, behind and in a row do not matter. */
  function Components(path: seq<Byte>): seq<seq<Byte>>
    decreases |path|
  {
    if path == [] then []
    else if path[0] == SLASH then Components(path[1..])
    else [path[..NameLength(path)]] + Components(path[NameLength(path)..])
  }

  lemma {:induction false} NameLengthIs(path: seq<Byte>, n: nat)
    requires n <= |path| && SLASH !in path[..n] && (n < |path| ==> path[n] == SLASH)
    ensures NameLength(path) == n
    decreases n
  {
    if n > 0 {
      assert path[0] == path[..n][0];
      assert path[1..][..n - 1] == path[..n][1..];
      NameLengthIs(path[1..], n - 1);
    }
  }

  /** A slash separates: the names on both sides of one are the names of the whole. */
  lemma {:induction false} ComponentsSplit(a: seq<Byte>, b: seq<Byte>)
    ensures Components(a + [SLASH] + b) == Components(a) + Components(b)
    decreases |a|
  {
    var path := a + [SLASH] + b;
    if a == [] {
      assert path[1..] == b;
    } else if a[0] == SLASH {
      assert path[1..] == a[1..] + [SLASH] + b;
      ComponentsSplit(a[1..], b);
    } else {
      var n := NameLength(a);
      assert path[..n] == a[..n];
      NameLengthIs(path, n);
      assert path[n..] == a[n..] + [SLASH] + b;
      ComponentsSplit(a[n..], b);
    }
  }

  // ---- Resolving ----

  /** What a path leads to: the inode, and its id unless it is the one to start from. */
  datatype Target = Target(ino: DirInode, id: Option<nat>)

  /** The meaning of sqfs_lookup_path_with_id on the names of a path; `inodeAt` is sqfs_inode_get. */
  ghost function Walk(src: Source, table: nat, inodeAt: nat -> Result<DirInode>, at: Target, names: seq<seq<Byte>>):
    Result<Option<Target>>
    requires Ends(src)
    decreases |names|
  {
    if names == [] then Ok(Some(at))
    else
      match LookupAt(src, table, at.ino, names[0])
      case Err(e) => Err(e)
      case Ok(None) => Ok(None)
      case Ok(Some(e)) =>
        match inodeAt(e.inode)
        case Err(x) => Err(x)
        case Ok(ino) => Walk(src, table, inodeAt, Target(ino, Some(e.inode)), names[1..])
  }

  /** Resolving names in a tree of which one knows what each directory lists. */
  function Resolve(lists: DirInode -> seq<Dirent>, inodeAt: nat -> Result<DirInode>, at: Target, names: seq<seq<Byte>>):
    Result<Option<Target>>
    decreases |names|
  {
    if names == [] then Ok(Some(at))
    else if !at.ino.isDir then Err(Invalid)
    else
      match Named(lists(at.ino), names[0])
      case None => Ok(None)
      case Some(e) =>
        match inodeAt(e.inode)
        case Err(x) => Err(x)
        case Ok(ino) => Resolve(lists, inodeAt, Target(ino, Some(e.inode)), names[1..])
  }

  /** The directories of a tree: their inodes, their bytes and their entries. */
  datatype Tree = Tree(dirs: set<DirInode>, bytes: DirInode -> Stream, lists: DirInode -> seq<Dirent>)

  /** A directory of the tree is well formed and sorted, and the directories it lists are of the tree. */
  ghost predicate IsNode(src: Source, table: nat, inodeAt: nat -> Result<DirInode>, tree: Tree, ino: DirInode) {
    && IsDirectory(src, table, ino, tree.bytes(ino), tree.lists(ino)) && Sorted(tree.lists(ino))
    && forall e | e in tree.lists(ino) :: inodeAt(e.inode).Ok? ==> Within(tree, inodeAt(e.inode).value)
  }

  predicate Within(tree: Tree, ino: DirInode) {
    ino.isDir ==> ino in tree.dirs
  }

  ghost predicate IsTree(src: Source, table: nat, inodeAt: nat -> Result<DirInode>, tree: Tree) {
    forall ino | ino in tree.dirs :: IsNode(src, table, inodeAt, tree, ino)
  }

  /** A lookup in a directory of a tree finds what the directory lists, and what that is stays in the tree. */
  lemma NodeLookup(src: Source, table: nat, inodeAt: nat -> Result<DirInode>, tree: Tree, ino: DirInode,
                   name: seq<Byte>)
    requires Ends(src) && IsTree(src, table, inodeAt, tree) && ino in tree.dirs && NoNul(name)
    ensures LookupAt(src, table, ino, name) == Ok(Named(tree.lists(ino), name)) && ino.isDir
    ensures var e := Named(tree.lists(ino), name);
            e.Some? && inodeAt(e.value.inode).Ok? ==> Within(tree, inodeAt(e.value.inode).value)
  {
    assert IsNode(src, table, inodeAt, tree, ino);
    LookupExact(src, table, ino, tree.bytes(ino), tree.lists(ino), name);
  }

  /** Path lookup is resolving names in the tree: indexes and early stops cannot be told. */
  lemma {:induction false} WalkResolves(src: Source, table: nat, inodeAt: nat -> Result<DirInode>, tree: Tree,
                                        at: Target, names: seq<seq<Byte>>)
    requires Ends(src) && IsTree(src, table, inodeAt, tree) && Within(tree, at.ino)
    requires AreNames(names)
    ensures Walk(src, table, inodeAt, at, names) == Resolve(tree.lists, inodeAt, at, names)
    decreases |names|
  {
    if names != [] && at.ino.isDir {
      NodeLookup(src, table, inodeAt, tree, at.ino, names[0]);
      var found := Named(tree.lists(at.ino), names[0]);
      if found.Some? && inodeAt(found.value.inode).Ok? {
        WalkResolves(src, table, inodeAt, tree, Target(inodeAt(found.value.inode).value, Some(found.value.inode)),
                     names[1..]);
      }
    }
  }

  lemma {:induction false} NamesNoNul(path: seq<Byte>)
    requires NoNul(path)
    ensures AreNames(Components(path))
    decreases |path|
  {
    if path != [] {
      if path[0] == SLASH {
        NamesNoNul(path[1..]);
      } else {
        NamesNoNul(path[NameLength(path)..]);
      }
    }
  }

  /** The next name of a path and what is behind it: the two loops over its characters. */
  method NextName(path: seq<Byte>) returns (name: seq<Byte>, rest: seq<Byte>)
    ensures if name == [] then Components(path) == []
            else Components(path) == [name] + Components(rest) && |rest| < |path|
  {
    rest := path;
    while rest != [] && rest[0] == SLASH
      invariant Components(path) == Components(rest) && |rest| <= |path|
      decreases |rest|
    {
      rest := rest[1..];
    }
    var n: nat := 0;
    while n < |rest| && rest[n] != SLASH
      invariant n <= |rest| && SLASH !in rest[..n]
    {
      n := n + 1;
    }
    NameLengthIs(rest, n);
    return rest[..n], rest[n..];
  }

  /** A tree whose directories are at positions that are not zero. */
  ghost predicate IsPlacedTree(src: Source, table: nat, inodeAt: nat -> Result<DirInode>, tree: Tree) {
    IsTree(src, table, inodeAt, tree) && 0 < table && forall ino | ino in tree.dirs :: 0 < ino.next.block
  }

  ghost predicate AreNames(names: seq<seq<Byte>>) {
    forall i | 0 <= i < |names| :: NoNul(names[i])
  }

  /** sqfs_lookup_path_with_id. On any image it is walking the directories. In a tree it finds exactly what the path
      resolves to, whatever is cached, and it asserts only if an earlier read failed. */
  method LookupPath(md: BlockCache, ghost im: Image, ghost src: Source, table: nat,
                    inodeAt: nat -> Result<DirInode>, root: DirInode, path: seq<Byte>, ghost tree: Tree)
    returns (r: Result<Option<Target>>)
    requires md.Valid() && Serves(md, im) && Means(src, im) && Ends(src)
    modifies md.Repr()
    ensures md.Valid() && md.held == old(md.held)
    ensures r == Err(AssertFailed) || r == Walk(src, table, inodeAt, Target(root, None), Components(path))
    ensures IsPlacedTree(src, table, inodeAt, tree) && Within(tree, root) && NoNul(path) ==>
              r == Resolve(tree.lists, inodeAt, Target(root, None), Components(path)) ||
              (r == Err(AssertFailed) && old(md.failed))
    ensures r.Ok? ==> md.failed == old(md.failed)
  {
    var at, rest := Target(root, None), path;
    ghost var goal := Walk(src, table, inodeAt, at, Components(path));
    ghost var inTree := IsPlacedTree(src, table, inodeAt, tree) && Within(tree, root) && NoNul(path);
    if inTree {
      NamesNoNul(path);
      WalkResolves(src, table, inodeAt, tree, at, Components(path));
    }
    while rest != []
      invariant md.Valid() && md.held == old(md.held) && md.failed == old(md.failed)
      invariant goal == Walk(src, table, inodeAt, at, Components(rest))
      invariant inTree ==> Within(tree, at.ino) && AreNames(Components(rest))
      decreases |rest|
    {
      var name, next := NextName(rest);
      if name == [] {
        break;
      }
      assert Components(rest)[0] == name && Components(rest)[1..] == Components(next);
      if inTree && at.ino.isDir {
        NodeLookup(src, table, inodeAt, tree, at.ino, name);
      }
      var got := DirReader.Lookup(md, im, src, table, at.ino, name);
      if got.Err? {
        return Err(got.error);
      }
      if got.value.None? {
        return Ok(None);
      }
      var id := got.value.value.inode;
      var ino := inodeAt(id);
      if ino.Err? {
        return Err(ino.error);
      }
      at, rest := Target(ino.value, Some(id)), next;
    }
    return Ok(Some(at));
  }
}
