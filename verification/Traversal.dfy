/** The seven-state traversal machine of src/traverse.c on values, and recursive depth-first traversal
    as its meaning. */
module Traversal {
  import opened Prelude

  type Name = string

  /** What reading a directory yields: its entries, then the end (`ok`) or a read error. */
  datatype Listing = Listing(entries: seq<Tree>, ok: bool)

  /** A directory entry with what is below it. `readable` says whether the directory's inode can be
      read and opened. */
  datatype Tree = Leaf(name: Name) | Dir(name: Name, readable: bool, kids: Listing)

  /** What the traversal reports: an entry with its path, or the end of a directory. */
  datatype Event = Enter(path: string, isDir: bool) | Leave(path: string)

  /** Events, ending regularly or in an error. */
  datatype Trace = Trace(events: seq<Event>, ok: bool)

  /** First `a`, then `b` unless `a` failed. */
  function Then(a: Trace, b: Trace): Trace {
    if a.ok then Trace(a.events + b.events, b.ok) else a
  }

  const NOTHING := Trace([], true)
  const FAILURE := Trace([], false)

  // ---- Recursive traversal ----

  /** Names joined by "/". */
  function Join(names: seq<Name>): string {
    if names == [] then ""
    else if |names| == 1 then names[0]
    else Join(names[..|names| - 1]) + "/" + names[|names| - 1]
  }

  /** The entries of a directory one after the other; directories for which `drop` holds are not
      gone into. */
  function Walk(above: seq<Name>, l: Listing, drop: string -> bool): Trace
    decreases l, 1
  {
    WalkEntries(above, l.entries, l.ok, drop)
  }

  function WalkEntries(above: seq<Name>, entries: seq<Tree>, ok: bool, drop: string -> bool): Trace
    decreases entries, 0
  {
    if entries == [] then Trace([], ok)
    else Then(Visit(above, entries[0], drop), WalkEntries(above, entries[1..], ok, drop))
  }

  /** An entry, then what is in it, then its end. */
  function Visit(above: seq<Name>, t: Tree, drop: string -> bool): Trace
    decreases t, 2
  {
    var here := above + [t.name];
    var enter := Trace([Enter(Join(here), t.Dir?)], true);
    if t.Leaf? || drop(Join(here)) then enter else Then(enter, Inside(above, t, drop))
  }

  /** The part of a directory's visit behind the entry itself. */
  function Inside(above: seq<Name>, t: Tree, drop: string -> bool): Trace
    requires t.Dir?
    decreases t, 1
  {
    var here := above + [t.name];
    if t.readable then Then(Walk(here, t.kids, drop), Trace([Leave(Join(here))], true)) else FAILURE
  }

  // ---- The machine ----

  datatype Phase = Descend | NameRemove | Error | Finished | Ascend | NameAdd | GetEntry

  /** A directory being read: what is left of it, and the size of its name in the path. */
  datatype Level = Level(rest: Listing, nameSize: nat)

  /** The values of a sqfs_traverse; `path` is without its terminator. */
  datatype Machine = Machine(phase: Phase, stack: seq<Level>, entry: Tree, path: string, lastSize: nat, dirEnd: bool)

  /** How a call of sqfs_traverse_next ends. */
  datatype Outcome = Item(event: Event) | End | Fail

  function PathRemove(path: string, size: nat): string {
    if size <= |path| then path[..|path| - size] else ""
  }

  /** sqfs_traverse_open_inode on a directory that can be opened. */
  function Open(l: Listing): Machine {
    Machine(NameRemove, [Level(l, 0)], Leaf(""), "", 0, false)
  }

  function Top(m: Machine): Level
    requires m.stack != []
  {
    m.stack[|m.stack| - 1]
  }

  function Below(m: Machine): seq<Level>
    requires m.stack != []
  {
    m.stack[..|m.stack| - 1]
  }

  function GetEntryTurn(m: Machine): Machine
    requires m.phase == GetEntry
  {
    if m.stack == [] then m.(phase := Error)
    else
      var l := Top(m).rest;
      if l.entries != [] then
        m.(phase := NameAdd, entry := l.entries[0],
           stack := Below(m) + [Top(m).(rest := l.(entries := l.entries[1..]))])
      else m.(phase := if l.ok then Ascend else Error)
  }

  function NameAddTurn(m: Machine): Machine
    requires m.phase == NameAdd
  {
    m.(phase := if m.entry.Dir? then Descend else NameRemove, path := m.path + m.entry.name,
       lastSize := |m.entry.name|, dirEnd := false)
  }

  function NameRemoveTurn(m: Machine): Machine
    requires m.phase == NameRemove
  {
    m.(phase := GetEntry, path := PathRemove(m.path, m.lastSize))
  }

  function DescendTurn(m: Machine): Machine
    requires m.phase == Descend
  {
    if m.entry.Dir? && m.entry.readable then
      m.(phase := GetEntry, stack := m.stack + [Level(m.entry.kids, if m.stack == [] then 0 else |m.entry.name|)],
         path := if m.stack == [] then m.path else m.path + "/")
    else m.(phase := Error)
  }

  function AscendTurn(m: Machine): Machine
    requires m.phase == Ascend
  {
    if m.stack == [] then m.(phase := Error)
    else
      m.(phase := if |m.stack| > 1 then NameRemove else Finished, stack := Below(m),
         path := PathRemove(m.path, 1), lastSize := Top(m).nameSize,
         dirEnd := if |m.stack| > 1 then true else m.dirEnd)
  }

  /** Bounds the turns of one call. */
  function Rank(p: Phase): nat {
    match p
    case Descend => 4
    case NameRemove => 4
    case GetEntry => 3
    case NameAdd => 2
    case Ascend => 2
    case Finished => 1
    case Error => 1
  }

  /** The meaning of sqfs_traverse_next. */
  function Next(m: Machine): (Machine, Outcome)
    decreases Rank(m.phase)
  {
    match m.phase
    case GetEntry => Next(GetEntryTurn(m))
    case NameAdd => (NameAddTurn(m), Item(Enter(NameAddTurn(m).path, m.entry.Dir?)))
    case NameRemove => Next(NameRemoveTurn(m))
    case Descend => Next(DescendTurn(m))
    case Ascend =>
      var n := AscendTurn(m);
      if n.phase == NameRemove then (n, Item(Leave(n.path))) else Next(n)
    case Finished => (m, End)
    case Error => (m, Fail)
  }

  /** sqfs_traverse_prune. */
  function Prune(m: Machine): Machine {
    m.(phase := NameRemove)
  }

  // ---- What a machine still has to report ----

  /** The path of everything in the directory `names`. */
  function Prefix(names: seq<Name>): string {
    if names == [] then "" else Join(names) + "/"
  }

  /** What follows at the levels of a stack, the topmost first. */
  function Rest(stack: seq<Level>, names: seq<Name>, drop: string -> bool): Trace
    requires |stack| == |names| + 1
    decreases |stack|
  {
    var top := Walk(names, stack[|stack| - 1].rest, drop);
    if names == [] then top
    else Then(top, Then(Trace([Leave(Join(names))], true),
                        Rest(stack[..|stack| - 1], names[..|names| - 1], drop)))
  }

  /** `names` are the directories the machine is in; the path spells them and, in some phases, one
      more name. */
  ghost predicate In(m: Machine, names: seq<Name>) {
    && (m.phase == Finished || m.phase == Error || (|m.stack| == |names| + 1 && Sizes(m.stack, names)))
    && match m.phase
       case GetEntry => m.path == Prefix(names)
       case Ascend => m.path == Prefix(names) && Top(m).rest == Listing([], true)
       case NameAdd => m.path == Prefix(names)
       case NameRemove => m.lastSize <= |m.path| && PathRemove(m.path, m.lastSize) == Prefix(names)
       case Descend => m.entry.Dir? && m.lastSize == |m.entry.name| && m.path == Prefix(names) + m.entry.name
       case Finished => true
       case Error => true
  }

  ghost predicate Sizes(stack: seq<Level>, names: seq<Name>)
    requires |stack| == |names| + 1
  {
    stack[0].nameSize == 0 && forall i | 0 <= i < |names| :: stack[i + 1].nameSize == |names[i]|
  }

  /** Everything the machine will report. */
  function Pending(m: Machine, names: seq<Name>, drop: string -> bool): Trace
    requires m.phase == Finished || m.phase == Error || |m.stack| == |names| + 1
  {
    match m.phase
    case Finished => NOTHING
    case Error => FAILURE
    case NameAdd => Then(Visit(names, m.entry, drop), Rest(m.stack, names, drop))
    case Descend => if m.entry.Dir? then Then(Inside(names, m.entry, drop), Rest(m.stack, names, drop)) else FAILURE
    case _ => Rest(m.stack, names, drop)
  }
}
