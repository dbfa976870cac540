/** Traversing a tree of directories reports exactly the paths that can be looked up in it. */
module TraverseTree {
  import opened Prelude
  import D = Dir
  import L = DirListing
  import N = DirLookup
  import P = PathLookup
  import opened Traversal
  import TraversalProof
  import opened TraverseImage

  /** What the directories of a tree list. */
  type Lists = D.DirInode -> seq<D.Dirent>

  // ---- The tree that is traversed ----

  /** The entries of a directory, with what is below them, n levels deep. */
  function TreesOf(w: World, lists: Lists, es: seq<D.Dirent>, n: nat): seq<Tree>
    decreases n, |es|
  {
    if es == [] then [] else [TreeOf(w, lists, es[0], n)] + TreesOf(w, lists, es[1..], n)
  }

  function TreeOf(w: World, lists: Lists, e: D.Dirent, n: nat): Tree
    decreases n, 0
  {
    if !w.isDir(e.kind) then Leaf(Text(e.name))
    else if n == 0 || OpenDir(w, e.inode).None? then Dir(Text(e.name), false, Listing([], true))
    else Dir(Text(e.name), true, Listing(TreesOf(w, lists, lists(w.inodeAt(e.inode).value), n - 1), true))
  }

  /** A directory listed by another one has a smaller rank: no directory is below itself. */
  ghost predicate IsBelow(w: World, dirs: set<D.DirInode>, rank: D.DirInode -> nat, e: D.Dirent, n: nat) {
    w.isDir(e.kind) && OpenDir(w, e.inode).Some? ==>
      w.inodeAt(e.inode).value in dirs && rank(w.inodeAt(e.inode).value) < n
  }

  ghost predicate AreBelow(w: World, dirs: set<D.DirInode>, rank: D.DirInode -> nat, es: seq<D.Dirent>, n: nat) {
    forall i | 0 <= i < |es| :: IsBelow(w, dirs, rank, es[i], n)
  }

  ghost predicate IsRanked(w: World, tree: P.Tree, rank: D.DirInode -> nat) {
    forall ino | ino in tree.dirs :: AreBelow(w, tree.dirs, rank, tree.lists(ino), rank(ino))
  }

  ghost predicate IsRankedTree(w: World, tree: P.Tree, rank: D.DirInode -> nat) {
    P.IsTree(w.src, w.table, w.inodeAt, tree) && IsRanked(w, tree, rank)
  }

  /** Reading the directory yields the entries of its listing. */
  lemma {:induction false} StreamShows(w: World, tree: P.Tree, rank: D.DirInode -> nat, d: L.Stream, p: L.Pos,
                                       es: seq<D.Dirent>, n: nat)
    requires IsRankedTree(w, tree, rank) && L.Steps(d) && L.Reads(w.src, d) && L.Listing(d, p) == Some(es)
    requires AreBelow(w, tree.dirs, rank, es, n)
    ensures Shows(w, L.Stand(d, p), TreesOf(w, tree.lists, es, n), true)
    decreases n, |es|
  {
    assert w.src.next(L.Stand(d, p)) == L.Told(d, p);
    if es != [] {
      var next := d.step(p).next;
      assert es[0] == d.step(p).entry && L.Listing(d, next) == Some(es[1..]);
      EntryShows(w, tree, rank, es[0], n);
      StreamShows(w, tree, rank, d, next, es[1..], n);
    }
  }

  lemma {:induction false} EntryShows(w: World, tree: P.Tree, rank: D.DirInode -> nat, e: D.Dirent, n: nat)
    requires IsRankedTree(w, tree, rank) && IsBelow(w, tree.dirs, rank, e, n)
    ensures ShowsEntry(w, e, TreeOf(w, tree.lists, e, n))
    decreases n, 0
  {
    if w.isDir(e.kind) && OpenDir(w, e.inode).Some? {
      DirShows(w, tree, rank, w.inodeAt(e.inode).value, n - 1);
    }
  }

  /** A tree of directories is what its image shows. */
  lemma {:induction false} DirShows(w: World, tree: P.Tree, rank: D.DirInode -> nat, ino: D.DirInode, n: nat)
    requires IsRankedTree(w, tree, rank) && ino in tree.dirs && rank(ino) <= n
    ensures Shows(w, D.Begin(w.table, ino), TreesOf(w, tree.lists, tree.lists(ino), n), true)
    decreases n, |tree.lists(ino)| + 1
  {
    assert P.IsNode(w.src, w.table, w.inodeAt, tree, ino);
    assert D.Begin(w.table, ino) == L.Stand(tree.bytes(ino), L.START);
    assert AreBelow(w, tree.dirs, rank, tree.lists(ino), n);
    StreamShows(w, tree, rank, tree.bytes(ino), L.START, tree.lists(ino), n);
  }

  // ---- Paths ----

  /** Names joined by slashes, as bytes. */
  function Path(names: seq<seq<Byte>>): seq<Byte> {
    if names == [] then []
    else if |names| == 1 then names[0]
    else Path(names[..|names| - 1]) + [P.SLASH] + names[|names| - 1]
  }

  function Texts(names: seq<seq<Byte>>): (s: seq<Name>)
    ensures |s| == |names| && forall i | 0 <= i < |names| :: s[i] == Text(names[i])
  {
    seq(|names|, i requires 0 <= i < |names| => Text(names[i]))
  }

  lemma TextSum(a: seq<Byte>, b: seq<Byte>)
    ensures Text(a + b) == Text(a) + Text(b)
  {
  }

  lemma TextOnly(a: seq<Byte>, b: seq<Byte>)
    requires Text(a) == Text(b)
    ensures a == b
  {
    forall i | 0 <= i < |a|
      ensures a[i] == b[i]
    {
      assert Text(a)[i] == Text(b)[i];
    }
  }

  lemma {:induction false} PathText(names: seq<seq<Byte>>)
    ensures Text(Path(names)) == Join(Texts(names))
    decreases |names|
  {
    if |names| > 1 {
      var init, last := names[..|names| - 1], names[|names| - 1];
      PathText(init);
      assert Texts(names)[..|names| - 1] == Texts(init);
      TextSum(Path(init) + [P.SLASH], last);
      TextSum(Path(init), [P.SLASH]);
      assert Text([P.SLASH]) == "/";
    }
  }

  /** A name that a path can spell. */
  predicate IsClean(name: seq<Byte>) {
    name != [] && P.SLASH !in name
  }

  ghost predicate AreClean(names: seq<seq<Byte>>) {
    forall i | 0 <= i < |names| :: IsClean(names[i])
  }

  lemma OneComponent(name: seq<Byte>)
    requires IsClean(name)
    ensures P.Components(name) == [name]
  {
    assert name[..|name|] == name && name[|name|..] == [];
    P.NameLengthIs(name, |name|);
    assert name[0] in name;
  }

  /** The path spells the names again. */
  lemma {:induction false} PathComponents(names: seq<seq<Byte>>)
    requires AreClean(names)
    ensures P.Components(Path(names)) == names
    decreases |names|
  {
    if |names| == 1 {
      OneComponent(names[0]);
    } else if names != [] {
      var init, last := names[..|names| - 1], names[|names| - 1];
      PathComponents(init);
      OneComponent(last);
      P.ComponentsSplit(Path(init), last);
      assert names == init + [last] && Path(names) == Path(init) + [P.SLASH] + last;
    }
  }

  // ---- What names lead to ----

  /** What the names lead to from a directory: nothing, or an entry that is a directory or is not. */
  function KindAt(w: World, lists: Lists, ino: D.DirInode, names: seq<seq<Byte>>): Option<bool>
    requires names != []
    decreases |names|
  {
    if !ino.isDir || N.Named(lists(ino), names[0]).None? then None
    else
      var e := N.Named(lists(ino), names[0]).value;
      if |names| == 1 then Some(w.isDir(e.kind))
      else if w.inodeAt(e.inode).Err? then None
      else KindAt(w, lists, w.inodeAt(e.inode).value, names[1..])
  }

  /** That is what lookup resolves, unless an inode cannot be read. */
  lemma {:induction false} KindResolves(w: World, lists: Lists, at: P.Target, names: seq<seq<Byte>>)
    requires names != []
    ensures P.Resolve(lists, w.inodeAt, at, names).Ok? && P.Resolve(lists, w.inodeAt, at, names).value.Some? ==>
              KindAt(w, lists, at.ino, names).Some?
    ensures KindAt(w, lists, at.ino, names).Some? ==>
              || P.Resolve(lists, w.inodeAt, at, names).Err?
              || P.Resolve(lists, w.inodeAt, at, names).value.Some?
    decreases |names|
  {
    if at.ino.isDir && N.Named(lists(at.ino), names[0]).Some? {
      var e := N.Named(lists(at.ino), names[0]).value;
      if |names| > 1 && w.inodeAt(e.inode).Ok? {
        KindResolves(w, lists, P.Target(w.inodeAt(e.inode).value, Some(e.inode)), names[1..]);
      }
    }
  }

  // ---- What is reported leads somewhere ----

  /** The entries are those that a directory has under their names. */
  ghost predicate AreNamed(lists: Lists, ino: D.DirInode, es: seq<D.Dirent>) {
    forall i | 0 <= i < |es| :: IsNamed(lists, ino, es[i])
  }

  ghost predicate IsNamed(lists: Lists, ino: D.DirInode, e: D.Dirent) {
    N.Named(lists(ino), e.name) == Some(e) && IsClean(e.name)
  }

  /** The names of all entries can be spelled by paths. */
  ghost predicate IsCleanTree(tree: P.Tree) {
    forall ino | ino in tree.dirs :: forall i | 0 <= i < |tree.lists(ino)| :: IsClean(tree.lists(ino)[i].name)
  }

  /** A tree whose directories are ranked, with names that paths can spell. */
  ghost predicate IsGood(w: World, tree: P.Tree, rank: D.DirInode -> nat) {
    IsRankedTree(w, tree, rank) && IsCleanTree(tree)
  }

  lemma {:induction false} NamedFirst(es: seq<D.Dirent>, i: nat)
    requires N.Sorted(es) && i < |es|
    ensures N.Named(es, es[i].name) == Some(es[i])
    decreases |es|
  {
    if i > 0 {
      assert N.Less(es[0].name, es[i].name);
      N.LessAsymmetric(es[0].name, es[i].name);
      NamedFirst(es[1..], i - 1);
    }
  }

  lemma DirIsNamed(w: World, tree: P.Tree, rank: D.DirInode -> nat, ino: D.DirInode)
    requires IsGood(w, tree, rank) && ino in tree.dirs
    ensures ino.isDir && AreNamed(tree.lists, ino, tree.lists(ino)) &&
            AreBelow(w, tree.dirs, rank, tree.lists(ino), rank(ino))
  {
    assert P.IsNode(w.src, w.table, w.inodeAt, tree, ino);
    forall i | 0 <= i < |tree.lists(ino)|
      ensures IsNamed(tree.lists, ino, tree.lists(ino)[i])
    {
      NamedFirst(tree.lists(ino), i);
    }
  }

  lemma MoreBelow(w: World, dirs: set<D.DirInode>, rank: D.DirInode -> nat, es: seq<D.Dirent>, m: nat, n: nat)
    requires AreBelow(w, dirs, rank, es, m) && m <= n
    ensures AreBelow(w, dirs, rank, es, n)
  {
  }

  /** What is said of a path: names that spell it, and what they lead to. */
  ghost predicate LeadsTo(w: World, lists: Lists, ino: D.DirInode, above: seq<seq<Byte>>, names: seq<seq<Byte>>,
                          path: string, b: bool) {
    names != [] && AreClean(names) && path == Join(Texts(above + names)) && KindAt(w, lists, ino, names) == Some(b)
  }

  lemma InThen(a: Trace, b: Trace, v: Event)
    requires v in Then(a, b).events
    ensures v in a.events || (a.ok && v in b.events)
  {
  }

  lemma VisitParts(above: seq<Name>, t: Tree, drop: string -> bool, v: Event)
    requires v.Enter? && v in Visit(above, t, drop).events
    ensures v == Enter(Join(above + [t.name]), t.Dir?) ||
            (t.Dir? && t.readable && v in WalkEntries(above + [t.name], t.kids.entries, t.kids.ok, drop).events)
  {
    var here := above + [t.name];
    var enter := Trace([Enter(Join(here), t.Dir?)], true);
    if t.Dir? && !drop(Join(here)) {
      InThen(enter, Inside(above, t, drop), v);
      if v != Enter(Join(here), t.Dir?) {
        assert v in Inside(above, t, drop).events;
        InThen(Walk(here, t.kids, drop), Trace([Leave(Join(here))], true), v);
      }
    }
  }

  /** What leads somewhere from a directory leads there from the one above. */
  lemma LeadsFromAbove(w: World, lists: Lists, ino: D.DirInode, e: D.Dirent, above: seq<seq<Byte>>,
                       rest: seq<seq<Byte>>, path: string, b: bool)
    requires ino.isDir && IsNamed(lists, ino, e) && w.inodeAt(e.inode).Ok?
    requires LeadsTo(w, lists, w.inodeAt(e.inode).value, above + [e.name], rest, path, b)
    ensures LeadsTo(w, lists, ino, above, [e.name] + rest, path, b)
  {
    var names := [e.name] + rest;
    assert above + [e.name] + rest == above + names && names[1..] == rest;
  }

  lemma NameLeads(w: World, lists: Lists, ino: D.DirInode, e: D.Dirent, above: seq<seq<Byte>>)
    requires ino.isDir && IsNamed(lists, ino, e)
    ensures LeadsTo(w, lists, ino, above, [e.name], Join(Texts(above + [e.name])), w.isDir(e.kind))
  {
  }

  /** What is reported of an entry is the entry, or of the directory that it is. */
  lemma EntryParts(w: World, lists: Lists, e: D.Dirent, n: nat, above: seq<seq<Byte>>, drop: string -> bool,
                   path: string, b: bool)
    requires Enter(path, b) in Visit(Texts(above), TreeOf(w, lists, e, n), drop).events
    ensures (path == Join(Texts(above + [e.name])) && b == w.isDir(e.kind)) ||
            (0 < n && w.isDir(e.kind) && OpenDir(w, e.inode).Some? &&
             Enter(path, b) in WalkEntries(Texts(above + [e.name]),
                                           TreesOf(w, lists, lists(w.inodeAt(e.inode).value), n - 1), true,
                                           drop).events)
  {
    assert Texts(above + [e.name]) == Texts(above) + [Text(e.name)];
    VisitParts(Texts(above), TreeOf(w, lists, e, n), drop, Enter(path, b));
  }

  lemma {:induction false} EntriesLead(w: World, tree: P.Tree, rank: D.DirInode -> nat, ino: D.DirInode,
                                       es: seq<D.Dirent>, n: nat, above: seq<seq<Byte>>, drop: string -> bool,
                                       path: string, b: bool)
    returns (names: seq<seq<Byte>>)
    requires IsGood(w, tree, rank) && ino.isDir && AreNamed(tree.lists, ino, es) && AreBelow(w, tree.dirs, rank, es, n)
    requires Enter(path, b) in WalkEntries(Texts(above), TreesOf(w, tree.lists, es, n), true, drop).events
    ensures LeadsTo(w, tree.lists, ino, above, names, path, b)
    decreases n, |es|, 1
  {
    var t := TreeOf(w, tree.lists, es[0], n);
    assert TreesOf(w, tree.lists, es, n)[1..] == TreesOf(w, tree.lists, es[1..], n);
    if Enter(path, b) in Visit(Texts(above), t, drop).events {
      names := VisitLeads(w, tree, rank, ino, es[0], n, above, drop, path, b);
    } else {
      names := EntriesLead(w, tree, rank, ino, es[1..], n, above, drop, path, b);
    }
  }

  lemma {:induction false} VisitLeads(w: World, tree: P.Tree, rank: D.DirInode -> nat, ino: D.DirInode, e: D.Dirent,
                                      n: nat, above: seq<seq<Byte>>, drop: string -> bool, path: string, b: bool)
    returns (names: seq<seq<Byte>>)
    requires IsGood(w, tree, rank) && ino.isDir && IsNamed(tree.lists, ino, e) && IsBelow(w, tree.dirs, rank, e, n)
    requires Enter(path, b) in Visit(Texts(above), TreeOf(w, tree.lists, e, n), drop).events
    ensures LeadsTo(w, tree.lists, ino, above, names, path, b)
    decreases n, 0, 0
  {
    EntryParts(w, tree.lists, e, n, above, drop, path, b);
    if path == Join(Texts(above + [e.name])) && b == w.isDir(e.kind) {
      NameLeads(w, tree.lists, ino, e, above);
      names := [e.name];
    } else {
      var child := w.inodeAt(e.inode).value;
      DirIsNamed(w, tree, rank, child);
      MoreBelow(w, tree.dirs, rank, tree.lists(child), rank(child), n - 1);
      var rest := EntriesLead(w, tree, rank, child, tree.lists(child), n - 1, above + [e.name], drop, path, b);
      LeadsFromAbove(w, tree.lists, ino, e, above, rest, path, b);
      names := [e.name] + rest;
    }
  }

  // ---- What leads somewhere is reported ----

  /** An entry whose inode is a directory's says so. */
  ghost predicate IsTyped(w: World, tree: P.Tree) {
    forall ino | ino in tree.dirs :: AreTyped(w, tree.lists(ino))
  }

  ghost predicate AreTyped(w: World, es: seq<D.Dirent>) {
    forall i | 0 <= i < |es| :: OpenDir(w, es[i].inode).Some? ==> w.isDir(es[i].kind)
  }

  lemma ThenIn(a: Trace, b: Trace, v: Event)
    requires Then(a, b).ok && (v in a.events || v in b.events)
    ensures v in Then(a, b).events && a.ok && b.ok
  {
  }

  lemma ThenOk(a: Trace, b: Trace)
    requires Then(a, b).ok
    ensures a.ok && b.ok
  {
  }

  /** Of an entry, and of what is in a directory, everything is reported that nobody prunes. */
  lemma VisitAll(above: seq<Name>, t: Tree, drop: string -> bool, v: Event)
    requires Visit(above, t, drop).ok && forall s :: !drop(s)
    requires v == Enter(Join(above + [t.name]), t.Dir?) ||
             (t.Dir? && v in WalkEntries(above + [t.name], t.kids.entries, t.kids.ok, drop).events)
    ensures v in Visit(above, t, drop).events && (t.Dir? ==> t.readable)
    ensures t.Dir? ==> WalkEntries(above + [t.name], t.kids.entries, t.kids.ok, drop).ok
  {
    var here := above + [t.name];
    var enter := Trace([Enter(Join(here), t.Dir?)], true);
    if t.Dir? {
      ThenOk(enter, Inside(above, t, drop));
      ThenOk(Walk(here, t.kids, drop), Trace([Leave(Join(here))], true));
      if v != Enter(Join(here), t.Dir?) {
        ThenIn(Walk(here, t.kids, drop), Trace([Leave(Join(here))], true), v);
      }
      ThenIn(enter, Inside(above, t, drop), v);
    }
  }

  lemma NamedAt(es: seq<D.Dirent>, name: seq<Byte>) returns (i: nat)
    requires N.Named(es, name).Some?
    ensures i < |es| && es[i] == N.Named(es, name).value && es[i].name == name
  {
    var e := N.Named(es, name).value;
    i :| i < |es| && es[i] == e;
  }

  /** The trace of the entries from i on is part of that of all of them. */
  lemma {:induction false} EntriesFrom(w: World, lists: Lists, es: seq<D.Dirent>, n: nat, above: seq<Name>,
                                       drop: string -> bool, i: nat, v: Event)
    requires i < |es| && WalkEntries(above, TreesOf(w, lists, es, n), true, drop).ok
    ensures Visit(above, TreeOf(w, lists, es[i], n), drop).ok
    ensures v in Visit(above, TreeOf(w, lists, es[i], n), drop).events ==>
              v in WalkEntries(above, TreesOf(w, lists, es, n), true, drop).events
    decreases |es|
  {
    var first, rest := Visit(above, TreeOf(w, lists, es[0], n), drop),
      WalkEntries(above, TreesOf(w, lists, es[1..], n), true, drop);
    assert TreesOf(w, lists, es, n)[1..] == TreesOf(w, lists, es[1..], n);
    assert WalkEntries(above, TreesOf(w, lists, es, n), true, drop) == Then(first, rest);
    ThenOk(first, rest);
    if i > 0 {
      EntriesFrom(w, lists, es[1..], n, above, drop, i - 1, v);
    }
    if v in Visit(above, TreeOf(w, lists, es[i], n), drop).events {
      ThenIn(first, rest, v);
    }
  }

  lemma EntryReported(w: World, lists: Lists, e: D.Dirent, n: nat, above: seq<seq<Byte>>, drop: string -> bool)
    requires Visit(Texts(above), TreeOf(w, lists, e, n), drop).ok && forall s :: !drop(s)
    ensures Enter(Join(Texts(above + [e.name])), w.isDir(e.kind)) in
              Visit(Texts(above), TreeOf(w, lists, e, n), drop).events
  {
    assert Texts(above + [e.name]) == Texts(above) + [Text(e.name)];
    VisitAll(Texts(above), TreeOf(w, lists, e, n), drop, Enter(Join(Texts(above + [e.name])), w.isDir(e.kind)));
  }

  lemma InsideReported(w: World, lists: Lists, e: D.Dirent, n: nat, m: nat, above: seq<seq<Byte>>, drop: string -> bool,
                       v: Event)
    requires Visit(Texts(above), TreeOf(w, lists, e, n), drop).ok && forall s :: !drop(s)
    requires w.isDir(e.kind) && OpenDir(w, e.inode).Some? && n == m + 1
    ensures var inside := WalkEntries(Texts(above + [e.name]), TreesOf(w, lists, lists(w.inodeAt(e.inode).value), m),
                                      true, drop);
            inside.ok && (v in inside.events ==> v in Visit(Texts(above), TreeOf(w, lists, e, n), drop).events)
  {
    var t := TreeOf(w, lists, e, n);
    assert Texts(above + [e.name]) == Texts(above) + [Text(e.name)];
    VisitAll(Texts(above), t, drop, Enter(Join(Texts(above) + [t.name]), t.Dir?));
    if v in WalkEntries(Texts(above) + [t.name], t.kids.entries, t.kids.ok, drop).events {
      VisitAll(Texts(above), t, drop, v);
    }
  }

  lemma KindSteps(w: World, lists: Lists, ino: D.DirInode, names: seq<seq<Byte>>, b: bool) returns (i: nat)
    requires names != [] && KindAt(w, lists, ino, names) == Some(b)
    ensures i < |lists(ino)| && lists(ino)[i].name == names[0]
    ensures |names| == 1 ==> b == w.isDir(lists(ino)[i].kind)
    ensures |names| > 1 ==>
              && OpenDir(w, lists(ino)[i].inode).Some?
              && KindAt(w, lists, w.inodeAt(lists(ino)[i].inode).value, names[1..]) == Some(b)
  {
    i := NamedAt(lists(ino), names[0]);
  }

  lemma GoesBelow(w: World, tree: P.Tree, rank: D.DirInode -> nat, ino: D.DirInode, i: nat, n: nat)
    requires IsRanked(w, tree, rank) && IsTyped(w, tree) && ino in tree.dirs && rank(ino) <= n
    requires i < |tree.lists(ino)| && OpenDir(w, tree.lists(ino)[i].inode).Some?
    ensures var e := tree.lists(ino)[i];
            && 0 < n && w.isDir(e.kind) && w.inodeAt(e.inode).Ok?
            && w.inodeAt(e.inode).value in tree.dirs && rank(w.inodeAt(e.inode).value) <= n - 1
  {
    assert AreTyped(w, tree.lists(ino));
    assert AreBelow(w, tree.dirs, rank, tree.lists(ino), rank(ino));
    assert IsBelow(w, tree.dirs, rank, tree.lists(ino)[i], rank(ino));
  }

  lemma FirstApart(above: seq<seq<Byte>>, names: seq<seq<Byte>>, first: seq<Byte>)
    requires names != [] && names[0] == first
    ensures above + names == above + [first] + names[1..]
  {
  }

  /** Whatever names lead to is reported, by a path that spells them, if nothing is pruned and all directories can be
      read. */
  lemma {:induction false} AllReported(w: World, tree: P.Tree, rank: D.DirInode -> nat, ino: D.DirInode, n: nat,
                                       above: seq<seq<Byte>>, names: seq<seq<Byte>>, drop: string -> bool, path: string,
                                       b: bool)
    requires IsRanked(w, tree, rank) && IsTyped(w, tree) && ino in tree.dirs && rank(ino) <= n && forall s :: !drop(s)
    requires WalkEntries(Texts(above), TreesOf(w, tree.lists, tree.lists(ino), n), true, drop).ok
    requires names != [] && KindAt(w, tree.lists, ino, names) == Some(b) && path == Join(Texts(above + names))
    ensures Enter(path, b) in WalkEntries(Texts(above), TreesOf(w, tree.lists, tree.lists(ino), n), true, drop).events
    decreases |names|
  {
    var es := tree.lists(ino);
    var i := KindSteps(w, tree.lists, ino, names, b);
    EntriesFrom(w, tree.lists, es, n, Texts(above), drop, i, Enter(path, b));
    FirstApart(above, names, es[i].name);
    if |names| == 1 {
      EntryReported(w, tree.lists, es[i], n, above, drop);
      assert above + [es[i].name] + names[1..] == above + [es[i].name];
    } else {
      GoesBelow(w, tree, rank, ino, i, n);
      InsideReported(w, tree.lists, es[i], n, n - 1, above, drop, Enter(path, b));
      AllReported(w, tree, rank, w.inodeAt(es[i].inode).value, n - 1, above + [es[i].name], names[1..], drop, path, b);
    }
  }

  // ---- All together ----

  /** The tree below a directory. */
  function Below(w: World, tree: P.Tree, rank: D.DirInode -> nat, root: D.DirInode): Listing {
    Listing(TreesOf(w, tree.lists, tree.lists(root), rank(root)), true)
  }

  /** The calls of a traversal report the recursive traversal of the tree below its directory, without what is below
      pruned directories. */
  lemma TreeIsWalked(w: World, tree: P.Tree, rank: D.DirInode -> nat, root: D.DirInode, drop: string -> bool, n: nat,
                     i: nat)
    requires IsRankedTree(w, tree, rank) && root in tree.dirs && i < n
    ensures |RunAt(w, OpenAt(w, root), drop, n)| == n
    ensures RunAt(w, OpenAt(w, root), drop, n)[i] ==
            TraversalProof.Answer(Walk([], Below(w, tree, rank, root), drop), i)
  {
    DirShows(w, tree, rank, root, rank(root));
    ImageIsWalk(w, root, Below(w, tree, rank, root), drop, n, i);
  }

  lemma SamePath(names: seq<seq<Byte>>, others: seq<seq<Byte>>)
    requires AreClean(names) && AreClean(others) && Text(Path(names)) == Text(Path(others))
    ensures names == others
  {
    TextOnly(Path(names), Path(others));
    PathComponents(names);
    PathComponents(others);
  }

  /** If nothing is pruned and all directories can be read, a path is reported exactly if looking it up finds an entry,
      and as what that is. */
  lemma ReportedIff(w: World, tree: P.Tree, rank: D.DirInode -> nat, root: D.DirInode, names: seq<seq<Byte>>,
                    drop: string -> bool, b: bool)
    requires IsGood(w, tree, rank) && IsTyped(w, tree) && root in tree.dirs && forall s :: !drop(s)
    requires Walk([], Below(w, tree, rank, root), drop).ok && names != [] && AreClean(names)
    ensures Enter(Text(Path(names)), b) in Walk([], Below(w, tree, rank, root), drop).events <==>
            KindAt(w, tree.lists, root, names) == Some(b)
  {
    var es, n, path := tree.lists(root), rank(root), Text(Path(names));
    PathText(names);
    assert Texts([]) == [] && [] + names == names;
    if KindAt(w, tree.lists, root, names) == Some(b) {
      AllReported(w, tree, rank, root, n, [], names, drop, path, b);
    }
    if Enter(path, b) in Walk([], Below(w, tree, rank, root), drop).events {
      DirIsNamed(w, tree, rank, root);
      var others := EntriesLead(w, tree, rank, root, es, n, [], drop, path, b);
      assert [] + others == others;
      PathText(others);
      SamePath(names, others);
    }
  }
}
