/** sqfs_traverse: the machine of src/traverse.c with its growing path buffer, and that it computes
    what the machine on values computes. */
module Traverse {
  import opened Prelude
  import opened Traversal

  const DEFAULT_PATH_CAP := 32

  class Traverse {
    var phase: Phase
    var stack: seq<Level>
    var entry: Tree
    var dirEnd: bool
    var path: array<char>
    var pathSize: nat  // the terminator included
    var lastSize: nat

    /** The buffer holds pathSize characters, the last of which is the terminator. */
    ghost predicate Valid()
      reads this, path
    {
      0 < pathSize <= path.Length && path[pathSize - 1] == '\0'
    }

    ghost function Path(): string
      requires Valid()
      reads this, path
    {
      path[..pathSize - 1]
    }

    ghost function View(): Machine
      requires Valid()
      reads this, path
    {
      Machine(phase, stack, entry, Path(), lastSize, dirEnd)
    }

    /** sqfs_traverse_open_inode on a directory that can be opened. */
    constructor (root: Listing)
      ensures Valid() && fresh(path) && View() == Open(root)
    {
      phase := Phase.NameRemove;
      stack := [Level(root, 0)];
      entry := Leaf("");
      dirEnd := false;
      path := new char[DEFAULT_PATH_CAP](_ => '\0');
      pathSize := 1;
      lastSize := 0;
    }

    /** The first part of sqfs_traverse_path_add: doubles the buffer until `need` characters fit. */
    method Reserve(need: nat)
      requires Valid()
      modifies this`path
      ensures Valid() && pathSize == old(pathSize) && need <= path.Length
      ensures path[..pathSize] == old(path[..pathSize])
      ensures if need <= old(path.Length) then path == old(path) else fresh(path) && path.Length < 2 * need
    {
      if need > path.Length {
        var cap := path.Length;
        while need > cap
          invariant path.Length <= cap && (cap == path.Length || cap < 2 * need)
          decreases need - cap
        {
          cap := cap * 2;
        }
        var next := new char[cap](_ => '\0');
        Move(next, path[..], 0);
        path := next;
      }
    }

    /** sqfs_traverse_path_add. */
    method PathAdd(s: string)
      requires Valid()
      modifies this`path, this`pathSize, path
      ensures Valid() && Path() == old(Path()) + s
      ensures path == old(path) || fresh(path)
    {
      var need := pathSize + |s|;
      Reserve(need);
      Move(path, s, pathSize - 1);
      pathSize := need;
      path[pathSize - 1] := '\0';
    }

    /** memcpy of `s` to the buffer at `at`. */
    static method Move(buf: array<char>, s: string, at: nat)
      requires at + |s| <= buf.Length
      modifies buf
      ensures buf[..at + |s|] == old(buf[..at]) + s
    {
      for i := 0 to |s|
        invariant buf[..at + i] == old(buf[..at]) + s[..i]
      {
        buf[at + i] := s[i];
      }
    }

    /** sqfs_traverse_path_remove. */
    method PathDrop(size: nat)
      requires Valid()
      modifies this`pathSize, path
      ensures Valid() && Path() == PathRemove(old(Path()), size)
    {
      if pathSize > size {
        pathSize := pathSize - size;
      } else {
        pathSize := 1;
      }
      path[pathSize - 1] := '\0';
    }

    /** The case of TRAVERSE_NAME_ADD. */
    method NameAdd()
      requires Valid() && phase == Phase.NameAdd
      modifies this, path
      ensures Valid() && (path == old(path) || fresh(path)) && View() == NameAddTurn(old(View()))
    {
      PathAdd(entry.name);
      lastSize := |entry.name|;
      phase := if entry.Dir? then Phase.Descend else Phase.NameRemove;
      dirEnd := false;
    }

    /** The case of TRAVERSE_NAME_REMOVE. */
    method NameRemove()
      requires Valid() && phase == Phase.NameRemove
      modifies this, path
      ensures Valid() && path == old(path) && View() == NameRemoveTurn(old(View()))
    {
      PathDrop(lastSize);
      phase := Phase.GetEntry;
    }

    /** Reading the next entry of the topmost directory (sqfs_dir_next). */
    method GetEntry()
      requires Valid() && phase == Phase.GetEntry
      modifies this`phase, this`stack, this`entry
      ensures Valid() && View() == GetEntryTurn(old(View()))
    {
      if stack == [] {
        phase := Error;
        return;
      }
      var below, top := stack[..|stack| - 1], stack[|stack| - 1];
      if top.rest.entries != [] {
        entry := top.rest.entries[0];
        stack := below + [top.(rest := top.rest.(entries := top.rest.entries[1..]))];
        phase := Phase.NameAdd;
      } else if top.rest.ok {
        phase := Phase.Ascend;
      } else {
        phase := Error;
      }
    }

    /** sqfs_traverse_descend. */
    method Descend()
      requires Valid() && phase == Phase.Descend
      modifies this, path
      ensures Valid() && (path == old(path) || fresh(path)) && View() == DescendTurn(old(View()))
    {
      if entry.Leaf? || !entry.readable {
        phase := Error;
        return;
      }
      var initial := |stack| == 0;
      if initial {
        stack := stack + [Level(entry.kids, 0)];
      } else {
        stack := stack + [Level(entry.kids, |entry.name|)];
        PathAdd("/");
      }
      phase := Phase.GetEntry;
    }

    /** sqfs_traverse_ascend, and what the switch does after it. */
    method Ascend()
      requires Valid() && phase == Phase.Ascend
      modifies this, path
      ensures Valid() && path == old(path) && View() == AscendTurn(old(View()))
    {
      if stack == [] {
        phase := Error;
        return;
      }
      PathDrop(1);
      lastSize := stack[|stack| - 1].nameSize;
      stack := stack[..|stack| - 1];
      if |stack| > 0 {
        dirEnd := true;
        phase := Phase.NameRemove;
      } else {
        phase := Finished;
      }
    }

    /** What a caller sees after a call. */
    ghost function Seen(found: bool, err: bool): Outcome
      requires Valid()
      reads this, path
    {
      if err then Fail else if !found then End else Item(if dirEnd then Leave(Path()) else Enter(Path(), entry.Dir?))
    }

    /** sqfs_traverse_next. */
    method Next() returns (found: bool, err: bool)
      requires Valid()
      modifies this, path
      ensures Valid() && (path == old(path) || fresh(path))
      ensures (View(), Seen(found, err)) == Traversal.Next(old(View()))
    {
      while true
        invariant Valid() && (path == old(path) || fresh(path))
        invariant Traversal.Next(View()) == Traversal.Next(old(View()))
        decreases Rank(phase)
      {
        match phase
        case GetEntry =>
          GetEntry();
        case NameAdd =>
          NameAdd();
          return true, false;
        case NameRemove =>
          NameRemove();
        case Descend =>
          Descend();
        case Ascend =>
          Ascend();
          if phase == Phase.NameRemove {
            return true, false;
          }
        case Finished =>
          return false, false;
        case Error =>
          return false, true;
      }
    }

    /** sqfs_traverse_prune. */
    method Prune()
      requires Valid()
      modifies this`phase
      ensures Valid() && View() == Traversal.Prune(old(View()))
    {
      phase := Phase.NameRemove;
    }
  }
}
