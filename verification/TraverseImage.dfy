/** Traversing the directories of an image: sqfs_traverse with its directories being read entry by entry. */
module TraverseImage {
  import opened Prelude
  import D = Dir
  import opened Traversal
  import opened TraversalProof

  /** The file system as a traversal sees it: how directories are read and where the directory table is, the inode
      of an id, and which entry types are those of directories. */
  datatype World = World(src: D.Source, table: nat, inodeAt: nat -> Result<D.DirInode>, isDir: nat -> bool)

  /** A name as text. */
  function Text(name: seq<Byte>): (s: string)
    ensures |s| == |name| && forall i | 0 <= i < |name| :: s[i] == name[i] as char
  {
    seq(|name|, i requires 0 <= i < |name| => name[i] as char)
  }

  // ---- The machine ----

  /** sqfs_traverse_level. */
  datatype Reading = Reading(dir: D.State, nameSize: nat)

  /** sqfs_traverse. */
  datatype Progress = Progress(phase: Phase, stack: seq<Reading>, entry: Option<D.Dirent>, path: string, lastSize: nat,
                           dirEnd: bool)

  /** sqfs_dir_open at the beginning, of the directory of an id. */
  function OpenDir(w: World, id: nat): Option<D.State> {
    match w.inodeAt(id)
    case Err(_) => None
    case Ok(ino) => if ino.isDir then Some(D.Begin(w.table, ino)) else None
  }

  /** sqfs_traverse_open_inode on a directory. */
  function OpenAt(w: World, root: D.DirInode): Progress {
    Progress(NameRemove, [Reading(D.Begin(w.table, root), 0)], None, "", 0, false)
  }

  function GetEntryAt(w: World, c: Progress): Progress
    requires c.phase == GetEntry
  {
    if c.stack == [] then c.(phase := Error)
    else
      var k := |c.stack| - 1;
      match w.src.next(c.stack[k].dir)
      case Err(_) => c.(phase := Error)
      case Ok((None, _)) => c.(phase := Ascend)
      case Ok((Some(e), t)) => c.(phase := NameAdd, entry := Some(e), stack := c.stack[..k] + [c.stack[k].(dir := t)])
  }

  function NameAddAt(w: World, c: Progress): Progress
    requires c.phase == NameAdd && c.entry.Some?
  {
    c.(phase := if w.isDir(c.entry.value.kind) then Descend else NameRemove, path := c.path + Text(c.entry.value.name),
       lastSize := |c.entry.value.name|, dirEnd := false)
  }

  function NameRemoveAt(c: Progress): Progress
    requires c.phase == NameRemove
  {
    c.(phase := GetEntry, path := PathRemove(c.path, c.lastSize))
  }

  function DescendAt(w: World, c: Progress): Progress
    requires c.phase == Descend && c.entry.Some?
  {
    match OpenDir(w, c.entry.value.inode)
    case None => c.(phase := Error)
    case Some(dir) =>
      c.(phase := GetEntry, stack := c.stack + [Reading(dir, if c.stack == [] then 0 else |c.entry.value.name|)],
         path := if c.stack == [] then c.path else c.path + "/")
  }

  function AscendAt(c: Progress): Progress
    requires c.phase == Ascend
  {
    if c.stack == [] then c.(phase := Error)
    else
      var k := |c.stack| - 1;
      c.(phase := if k > 0 then NameRemove else Finished, stack := c.stack[..k], path := PathRemove(c.path, 1),
         lastSize := c.stack[k].nameSize, dirEnd := if k > 0 then true else c.dirEnd)
  }

  /** Wherever a name is used there is an entry. */
  predicate HasEntry(c: Progress) {
    c.phase == NameAdd || c.phase == Descend ==> c.entry.Some?
  }

  /** sqfs_traverse_next. */
  function NextAt(w: World, c: Progress): (r: (Progress, Outcome))
    requires HasEntry(c)
    ensures HasEntry(r.0)
    decreases Rank(c.phase)
  {
    match c.phase
    case GetEntry => NextAt(w, GetEntryAt(w, c))
    case NameAdd => var n := NameAddAt(w, c); (n, Item(Enter(n.path, w.isDir(c.entry.value.kind))))
    case NameRemove => NextAt(w, NameRemoveAt(c))
    case Descend => NextAt(w, DescendAt(w, c))
    case Ascend =>
      var n := AscendAt(c);
      if n.phase == NameRemove then (n, Item(Leave(n.path))) else NextAt(w, n)
    case Finished => (c, End)
    case Error => (c, Fail)
  }

  function ReactAt(c: Progress, o: Outcome, drop: string -> bool): Progress {
    if o.Item? && o.event.Enter? && o.event.isDir && drop(o.event.path) then c.(phase := NameRemove) else c
  }

  // ---- The tree that an image shows ----

  /** Reading a directory from `s` on yields these entries, and then its end, or an error if it is not `ok`. */
  ghost predicate Shows(w: World, s: D.State, entries: seq<Tree>, ok: bool)
    decreases entries, 0
  {
    if entries == [] then (if ok then w.src.next(s).Ok? && w.src.next(s).value.0.None? else w.src.next(s).Err?)
    else
      match w.src.next(s)
      case Ok((Some(e), t)) => ShowsEntry(w, e, entries[0]) && Shows(w, t, entries[1..], ok)
      case _ => false
  }

  /** An entry, with what is below it if it is a directory that can be opened. */
  ghost predicate ShowsEntry(w: World, e: D.Dirent, t: Tree)
    decreases t, 1
  {
    && t.name == Text(e.name) && (t.Dir? <==> w.isDir(e.kind))
    && (t.Dir? ==>
          && t.readable == OpenDir(w, e.inode).Some?
          && (t.readable ==> Shows(w, OpenDir(w, e.inode).value, t.kids.entries, t.kids.ok)))
  }

  /** The machine on the image is the machine on the tree that it shows. */
  ghost predicate Mirrors(w: World, c: Progress, m: Machine) {
    && c.phase == m.phase && c.path == m.path && c.lastSize == m.lastSize && c.dirEnd == m.dirEnd
    && |c.stack| == |m.stack| && HasEntry(c)
    && (c.phase == NameAdd || c.phase == Descend ==> ShowsEntry(w, c.entry.value, m.entry))
    && (c.phase == Descend ==> m.entry.Dir?)
    && forall i | 0 <= i < |c.stack| :: MirrorsLevel(w, c.stack[i], m.stack[i])
  }

  ghost predicate MirrorsLevel(w: World, r: Reading, l: Level) {
    r.nameSize == l.nameSize && Shows(w, r.dir, l.rest.entries, l.rest.ok)
  }

  lemma GetEntryMirrors(w: World, c: Progress, m: Machine)
    requires Mirrors(w, c, m) && c.phase == GetEntry
    ensures Mirrors(w, GetEntryAt(w, c), GetEntryTurn(m))
  {
    if c.stack != [] {
      assert MirrorsLevel(w, c.stack[|c.stack| - 1], m.stack[|c.stack| - 1]);
    }
  }

  lemma DescendMirrors(w: World, c: Progress, m: Machine)
    requires Mirrors(w, c, m) && c.phase == Descend
    ensures Mirrors(w, DescendAt(w, c), DescendTurn(m))
  {
  }

  lemma AscendMirrors(w: World, c: Progress, m: Machine)
    requires Mirrors(w, c, m) && c.phase == Ascend
    ensures Mirrors(w, AscendAt(c), AscendTurn(m))
  {
    if c.stack != [] {
      assert MirrorsLevel(w, c.stack[|c.stack| - 1], m.stack[|c.stack| - 1]);
    }
  }

  /** A call on the image does and answers what the call on the tree does. */
  lemma {:induction false} NextMirrors(w: World, c: Progress, m: Machine)
    requires Mirrors(w, c, m)
    ensures NextAt(w, c).1 == Next(m).1 && Mirrors(w, NextAt(w, c).0, Next(m).0)
    decreases Rank(c.phase)
  {
    match c.phase
    case GetEntry =>
      GetEntryMirrors(w, c, m);
      NextMirrors(w, GetEntryAt(w, c), GetEntryTurn(m));
    case NameRemove =>
      NextMirrors(w, NameRemoveAt(c), NameRemoveTurn(m));
    case Descend =>
      DescendMirrors(w, c, m);
      NextMirrors(w, DescendAt(w, c), DescendTurn(m));
    case Ascend =>
      AscendMirrors(w, c, m);
      if AscendAt(c).phase != NameRemove {
        NextMirrors(w, AscendAt(c), AscendTurn(m));
      }
    case NameAdd =>
    case Finished =>
    case Error =>
  }

  /** What the first n calls on the image report, the caller pruning as `drop` says. */
  function RunAt(w: World, c: Progress, drop: string -> bool, n: nat): seq<Outcome>
    requires HasEntry(c)
    decreases n
  {
    if n == 0 then []
    else
      var (next, o) := NextAt(w, c);
      [o] + RunAt(w, ReactAt(next, o, drop), drop, n - 1)
  }

  lemma ReactMirrors(w: World, c: Progress, m: Machine, o: Outcome, drop: string -> bool)
    requires Mirrors(w, c, m)
    ensures Mirrors(w, ReactAt(c, o, drop), React(m, o, drop))
  {
  }

  lemma {:induction false} RunMirrors(w: World, c: Progress, m: Machine, drop: string -> bool, n: nat)
    requires Mirrors(w, c, m)
    ensures RunAt(w, c, drop, n) == Run(m, drop, n)
    decreases n
  {
    if n > 0 {
      NextMirrors(w, c, m);
      var (next, o) := NextAt(w, c);
      ReactMirrors(w, next, Next(m).0, o, drop);
      RunMirrors(w, ReactAt(next, o, drop), React(Next(m).0, o, drop), drop, n - 1);
    }
  }

  /** All calls together report the recursive traversal of what the directories of the image hold, without what is
      below pruned ones. */
  lemma ImageIsWalk(w: World, root: D.DirInode, l: Listing, drop: string -> bool, n: nat, i: nat)
    requires Shows(w, D.Begin(w.table, root), l.entries, l.ok) && i < n
    ensures |RunAt(w, OpenAt(w, root), drop, n)| == n
    ensures RunAt(w, OpenAt(w, root), drop, n)[i] == Answer(Walk([], l, drop), i)
  {
    var c, m := OpenAt(w, root), Open(l);
    assert MirrorsLevel(w, c.stack[0], m.stack[0]);
    RunMirrors(w, c, m, drop, n);
    TraverseIsWalk(l, drop, n, i);
  }
}
