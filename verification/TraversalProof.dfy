/** The traversal machine reports exactly what recursive traversal reports. */
module TraversalProof {
  import opened Traversal

  lemma ThenAssoc(a: Trace, b: Trace, c: Trace)
    ensures Then(Then(a, b), c) == Then(a, Then(b, c))
  {
    if a.ok && b.ok {
      assert (a.events + b.events) + c.events == a.events + (b.events + c.events);
    }
  }

  lemma ThenNothing(a: Trace)
    ensures Then(NOTHING, a) == a
  {
    assert [] + a.events == a.events;
  }

  lemma ThenOne(e: Event, a: Trace)
    ensures Then(Trace([e], true), a) == Trace([e] + a.events, a.ok)
  {
  }

  /** A path in a directory is the directory's prefix and the name. */
  lemma JoinSnoc(names: seq<Name>, name: Name)
    ensures Join(names + [name]) == Prefix(names) + name
  {
    var all := names + [name];
    assert all[..|all| - 1] == names;
  }

  // ---- One turn of the switch keeps what is still to come ----

  /** What follows below the top of the stack. */
  function Under(stack: seq<Level>, names: seq<Name>, drop: string -> bool): Trace
    requires |stack| == |names| + 1
  {
    if names == [] then NOTHING
    else Then(Trace([Leave(Join(names))], true), Rest(stack[..|stack| - 1], names[..|names| - 1], drop))
  }

  lemma RestSplit(stack: seq<Level>, names: seq<Name>, drop: string -> bool)
    requires |stack| == |names| + 1
    ensures Rest(stack, names, drop) == Then(Walk(names, stack[|stack| - 1].rest, drop), Under(stack, names, drop))
  {
    if names == [] {
      var top := Walk(names, stack[|stack| - 1].rest, drop);
      assert top.events + [] == top.events;
    }
  }

  /** Taking an entry off the top listing puts its visit in front of what is left. */
  lemma RestTake(stack: seq<Level>, stack': seq<Level>, names: seq<Name>, drop: string -> bool)
    requires |stack| == |stack'| == |names| + 1
    requires stack[..|stack| - 1] == stack'[..|stack'| - 1]
    requires stack[|stack| - 1].rest.entries != []
    requires stack'[|stack'| - 1].rest ==
             stack[|stack| - 1].rest.(entries := stack[|stack| - 1].rest.entries[1..])
    ensures Rest(stack, names, drop) ==
            Then(Visit(names, stack[|stack| - 1].rest.entries[0], drop), Rest(stack', names, drop))
  {
    var l := stack[|stack| - 1].rest;
    RestSplit(stack, names, drop);
    RestSplit(stack', names, drop);
    ThenAssoc(Visit(names, l.entries[0], drop), WalkEntries(names, l.entries[1..], l.ok, drop),
              Under(stack, names, drop));
  }

  lemma GetEntryIn(m: Machine, names: seq<Name>)
    requires m.phase == GetEntry && In(m, names)
    ensures In(GetEntryTurn(m), names)
  {
    var n := GetEntryTurn(m);
    if Top(m).rest.entries != [] {
      assert n.stack[..|n.stack| - 1] == Below(m);
    }
  }

  lemma GetEntryKeeps(m: Machine, names: seq<Name>, drop: string -> bool)
    requires m.phase == GetEntry && In(m, names)
    ensures In(GetEntryTurn(m), names)
    ensures Pending(GetEntryTurn(m), names, drop) == Pending(m, names, drop)
  {
    var n := GetEntryTurn(m);
    GetEntryIn(m, names);
    if Top(m).rest.entries != [] {
      assert n.stack[..|n.stack| - 1] == Below(m);
      RestTake(m.stack, n.stack, names, drop);
    } else {
      RestSplit(m.stack, names, drop);
    }
  }

  lemma NameRemoveKeeps(m: Machine, names: seq<Name>, drop: string -> bool)
    requires m.phase == NameRemove && In(m, names)
    ensures In(NameRemoveTurn(m), names)
    ensures Pending(NameRemoveTurn(m), names, drop) == Pending(m, names, drop)
  {
  }

  lemma DescendIn(m: Machine, names: seq<Name>)
    requires m.phase == Descend && In(m, names) && m.entry.readable
    ensures In(DescendTurn(m), names + [m.entry.name])
  {
    JoinSnoc(names, m.entry.name);
  }

  lemma DescendKeeps(m: Machine, names: seq<Name>, drop: string -> bool)
    requires m.phase == Descend && In(m, names)
    ensures m.entry.readable ==> In(DescendTurn(m), names + [m.entry.name])
    ensures m.entry.readable ==> Pending(DescendTurn(m), names + [m.entry.name], drop) == Pending(m, names, drop)
    ensures !m.entry.readable ==> DescendTurn(m).phase == Error && Pending(m, names, drop) == FAILURE
  {
    var here := names + [m.entry.name];
    if m.entry.readable {
      var n := DescendTurn(m);
      DescendIn(m, names);
      assert n.stack[..|n.stack| - 1] == m.stack && here[..|here| - 1] == names;
      ThenAssoc(Walk(here, m.entry.kids, drop), Trace([Leave(Join(here))], true), Rest(m.stack, names, drop));
    }
  }

  lemma AscendEnds(m: Machine, names: seq<Name>, drop: string -> bool)
    requires m.phase == Ascend && In(m, names) && names == []
    ensures AscendTurn(m).phase == Finished && Pending(m, names, drop) == NOTHING
  {
    RestSplit(m.stack, names, drop);
    ThenNothing(Under(m.stack, names, drop));
  }

  lemma AscendKeeps(m: Machine, names: seq<Name>)
    requires m.phase == Ascend && In(m, names) && names != []
    ensures AscendTurn(m).phase == NameRemove && AscendTurn(m).path == Join(names)
    ensures In(AscendTurn(m), names[..|names| - 1])
  {
    AscendPath(names);
  }

  lemma AscendReports(m: Machine, names: seq<Name>, drop: string -> bool)
    requires m.phase == Ascend && In(m, names) && names != []
    requires AscendTurn(m).phase == NameRemove
    ensures Pending(m, names, drop) ==
            Then(Trace([Leave(Join(names))], true), Pending(AscendTurn(m), names[..|names| - 1], drop))
  {
    RestSplit(m.stack, names, drop);
    ThenNothing(Under(m.stack, names, drop));
  }

  /** Leaving a directory: without the separator the path is the directory's, and without the
      directory's name it is the prefix one level up. */
  lemma AscendPath(names: seq<Name>)
    requires names != []
    ensures PathRemove(Prefix(names), 1) == Join(names)
    ensures |names[|names| - 1]| <= |Join(names)|
    ensures PathRemove(Join(names), |names[|names| - 1]|) == Prefix(names[..|names| - 1])
  {
    var init, last := names[..|names| - 1], names[|names| - 1];
    assert init + [last] == names;
    JoinSnoc(init, last);
    assert PathRemove(Join(names) + "/", 1) == Join(names);
    assert PathRemove(Prefix(init) + last, |last|) == Prefix(init);
  }

  lemma NameAddReports(m: Machine, names: seq<Name>, drop: string -> bool)
    requires m.phase == NameAdd && In(m, names)
    ensures NameAddTurn(m).path == Join(names + [m.entry.name])
    ensures In(NameAddTurn(m), names) && In(Prune(NameAddTurn(m)), names)
    ensures var e := Enter(NameAddTurn(m).path, m.entry.Dir?);
            Pending(m, names, drop) ==
            Then(Trace([e], true),
                 Pending(if m.entry.Dir? && drop(e.path) then Prune(NameAddTurn(m)) else NameAddTurn(m), names, drop))
  {
    var n := NameAddTurn(m);
    JoinSnoc(names, m.entry.name);
    assert PathRemove(Prefix(names) + m.entry.name, |m.entry.name|) == Prefix(names);
    if m.entry.Dir? && !drop(n.path) {
      ThenAssoc(Trace([Enter(n.path, true)], true), Inside(names, m.entry, drop), Rest(m.stack, names, drop));
    }
  }

  // ---- One call reports the next event ----

  /** The directories the machine is in after a call. */
  ghost function NamesAfter(m: Machine, names: seq<Name>): seq<Name>
    decreases Rank(m.phase)
  {
    match m.phase
    case GetEntry => NamesAfter(GetEntryTurn(m), names)
    case NameRemove => NamesAfter(NameRemoveTurn(m), names)
    case Descend => NamesAfter(DescendTurn(m), names + [m.entry.name])
    case Ascend => if names == [] then [] else names[..|names| - 1]
    case _ => names
  }

  /** What the caller does with an item: prune a directory for which `drop` holds. */
  function React(m: Machine, o: Outcome, drop: string -> bool): Machine {
    if o.Item? && o.event.Enter? && o.event.isDir && drop(o.event.path) then Prune(m) else m
  }

  /** A call reports the first pending event and leaves the others pending; without one it ends, or
      fails if the traversal does. */
  ghost predicate Reports(pending: Trace, m: Machine, o: Outcome, names: seq<Name>, drop: string -> bool) {
    if pending.events == [] then
      && o == (if pending.ok then End else Fail)
      && m.phase == (if pending.ok then Finished else Error)
    else
      && o == Item(pending.events[0])
      && In(React(m, o, drop), names)
      && Pending(React(m, o, drop), names, drop) == Trace(pending.events[1..], pending.ok)
  }

  lemma AscendNext(m: Machine, names: seq<Name>, drop: string -> bool)
    requires m.phase == Ascend && In(m, names)
    ensures Reports(Pending(m, names, drop), Next(m).0, Next(m).1, NamesAfter(m, names), drop)
  {
    if names == [] {
      AscendEnds(m, names, drop);
    } else {
      AscendKeeps(m, names);
      AscendReports(m, names, drop);
      ThenOne(Leave(Join(names)), Pending(AscendTurn(m), names[..|names| - 1], drop));
    }
  }

  lemma NameAddNext(m: Machine, names: seq<Name>, drop: string -> bool)
    requires m.phase == NameAdd && In(m, names)
    ensures Reports(Pending(m, names, drop), Next(m).0, Next(m).1, NamesAfter(m, names), drop)
  {
    NameAddReports(m, names, drop);
    var n, e := NameAddTurn(m), Enter(NameAddTurn(m).path, m.entry.Dir?);
    var after := React(n, Item(e), drop);
    assert Next(m) == (n, Item(e)) && NamesAfter(m, names) == names;
    assert after == if m.entry.Dir? && drop(e.path) then Prune(n) else n;
    ThenOne(e, Pending(after, names, drop));
    ReportsOne(Pending(m, names, drop), e, n, names, drop);
  }

  lemma ReportsOne(pending: Trace, e: Event, n: Machine, names: seq<Name>, drop: string -> bool)
    requires In(React(n, Item(e), drop), names)
    requires pending.events != [] && pending.events[0] == e
    requires Pending(React(n, Item(e), drop), names, drop) == Trace(pending.events[1..], pending.ok)
    ensures Reports(pending, n, Item(e), names, drop)
  {
  }

  lemma {:induction false} NextReports(m: Machine, names: seq<Name>, drop: string -> bool)
    requires In(m, names)
    ensures Reports(Pending(m, names, drop), Next(m).0, Next(m).1, NamesAfter(m, names), drop)
    decreases Rank(m.phase)
  {
    match m.phase
    case GetEntry =>
      GetEntryKeeps(m, names, drop);
      NextReports(GetEntryTurn(m), names, drop);
    case NameRemove =>
      NameRemoveKeeps(m, names, drop);
      NextReports(NameRemoveTurn(m), names, drop);
    case Descend =>
      DescendKeeps(m, names, drop);
      if m.entry.readable {
        NextReports(DescendTurn(m), names + [m.entry.name], drop);
      }
    case Ascend =>
      AscendNext(m, names, drop);
    case NameAdd =>
      NameAddNext(m, names, drop);
    case Finished =>
    case Error =>
  }

  // ---- All calls ----

  /** What the first n calls report, the caller pruning as `drop` says. */
  function Run(m: Machine, drop: string -> bool, n: nat): seq<Outcome>
    decreases n
  {
    if n == 0 then []
    else
      var (next, o) := Next(m);
      [o] + Run(React(next, o, drop), drop, n - 1)
  }

  /** The answers a trace stands for: its events, then the end or the error for ever. */
  function Answer(t: Trace, i: nat): Outcome {
    if i < |t.events| then Item(t.events[i]) else if t.ok then End else Fail
  }

  /** The first answer is what the call reports, and the later ones are those of what is left. */
  lemma ReportsAnswer(pending: Trace, m: Machine, o: Outcome, names: seq<Name>, drop: string -> bool, i: nat)
    requires Reports(pending, m, o, names, drop)
    ensures o == Answer(pending, 0)
    ensures In(React(m, o, drop), names)
    ensures Answer(pending, i + 1) == Answer(Pending(React(m, o, drop), names, drop), i)
  {
  }

  lemma {:induction false} RunReports(m: Machine, names: seq<Name>, drop: string -> bool, n: nat, i: nat)
    requires In(m, names) && i < n
    ensures |Run(m, drop, n)| == n && Run(m, drop, n)[i] == Answer(Pending(m, names, drop), i)
    decreases n
  {
    NextReports(m, names, drop);
    var next, o, names2 := Next(m).0, Next(m).1, NamesAfter(m, names);
    ReportsAnswer(Pending(m, names, drop), next, o, names2, drop, if i == 0 then 0 else i - 1);
    if n > 1 {
      RunReports(React(next, o, drop), names2, drop, n - 1, if i == 0 then 0 else i - 1);
    }
  }

  /** Calling sqfs_traverse_next over and over, pruning whatever directories one likes, yields exactly
      the events of the recursive traversal that does not go into those directories, in order and
      with the joined names as paths, and after them the end, or the error, on every further call. */
  lemma TraverseIsWalk(root: Listing, drop: string -> bool, n: nat, i: nat)
    requires i < n
    ensures |Run(Open(root), drop, n)| == n
    ensures Run(Open(root), drop, n)[i] == Answer(Walk([], root, drop), i)
  {
    RunReports(Open(root), [], drop, n, i);
  }
}
