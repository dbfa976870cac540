/** Writing the imports of an image: one pass sizes the tables, another fills them. */
module ImportWriter {
  import opened Prelude
  import opened ImportSpec
  import opened ImportTables

  // ---- Sizes ----

  function EntrySize(n: ImportName): nat {
    if n.name.Some? then Even(|n.name.value| + 3) else 0
  }

  function NameSizes(ns: seq<ImportName>, n: nat): nat
    requires n <= |ns|
  {
    if n == 0 then 0 else NameSizes(ns, n - 1) + EntrySize(ns[n - 1])
  }

  /** Bytes of the name table and thunks of the lookup table that a file needs. */
  function FileChars(f: ImportFile): nat {
    Even(|f.name| + 1) + if f.byway then 0 else NameSizes(f.names, |f.names|)
  }

  function FileThunks(f: ImportFile): nat {
    if f.byway then 2 else |f.names| + 1
  }

  function CharsOf(fs: seq<ImportFile>, n: nat): nat
    requires n <= |fs|
  {
    if n == 0 then 0 else CharsOf(fs, n - 1) + FileChars(fs[n - 1])
  }

  function ThunksOf(fs: seq<ImportFile>, n: nat): nat
    requires n <= |fs|
  {
    if n == 0 then 0 else ThunksOf(fs, n - 1) + FileThunks(fs[n - 1])
  }

  lemma {:induction false} SizesGrow(fs: seq<ImportFile>, n: nat)
    requires n <= |fs|
    ensures CharsOf(fs, n) <= CharsOf(fs, |fs|) && ThunksOf(fs, n) <= ThunksOf(fs, |fs|)
    decreases |fs| - n
  {
    if n < |fs| {
      SizesGrow(fs, n + 1);
    }
  }

  lemma {:induction false} NameSizesGrow(ns: seq<ImportName>, n: nat)
    requires n <= |ns|
    ensures NameSizes(ns, n) <= NameSizes(ns, |ns|)
    decreases |ns| - n
  {
    if n < |ns| {
      NameSizesGrow(ns, n + 1);
    }
  }

  /** Something in the list is not as it was read from the image. */
  predicate Edited(f: ImportFile) {
    f.byway || Some(f.name) != f.orig || NamesEdited(f.names, |f.names|)
  }

  predicate NamesEdited(ns: seq<ImportName>, n: nat)
    requires n <= |ns|
  {
    exists j | 0 <= j < n :: ns[j].name != ns[j].orig
  }

  /** Rounding up a total that was even is rounding up what was added. */
  lemma EvenSum(total: nat, n: nat)
    requires total % 2 == 0
    ensures Even(total + n) == total + Even(n) && Even(total + n) % 2 == 0
  {
  }

  /** What the names of a file need, added to running totals. */
  method CheckNames(f: ImportFile, need0: bool, thunks0: nat, chars0: nat)
    returns (need: bool, thunks: nat, chars: nat)
    requires chars0 % 2 == 0
    ensures need <==> need0 || NamesEdited(f.names, |f.names|)
    ensures thunks == thunks0 + |f.names|
    ensures chars == chars0 + NameSizes(f.names, |f.names|) && chars % 2 == 0
  {
    need, thunks, chars := need0, thunks0, chars0;
    for n := 0 to |f.names|
      invariant need <==> need0 || NamesEdited(f.names, n)
      invariant thunks == thunks0 + n
      invariant chars == chars0 + NameSizes(f.names, n) && chars % 2 == 0
    {
      if !need && f.names[n].name != f.names[n].orig {
        need := true;
      }
      if f.names[n].name.Some? {
        EvenSum(chars, |f.names[n].name.value| + 3);
        chars := chars + 2;
        chars := chars + |f.names[n].name.value| + 1;
        chars := chars + chars % 2;
      }
      thunks := thunks + 1;
    }
  }

  /** What a file needs, added to running totals; the total of characters is rounded up after every
      string, which is the same as rounding every string up. */
  method CheckFile(f: ImportFile, need0: bool, thunks0: nat, chars0: nat) returns (need: bool, thunks: nat, chars: nat)
    requires chars0 % 2 == 0
    ensures need <==> need0 || Edited(f)
    ensures thunks == thunks0 + FileThunks(f) && chars == chars0 + FileChars(f) && chars % 2 == 0
  {
    need, thunks := need0, thunks0;
    EvenSum(chars0, |f.name| + 1);
    chars := chars0 + |f.name| + 1;
    chars := chars + chars % 2;
    if f.byway {
      need := true;
      thunks := thunks + 1;
    } else {
      if !need && Some(f.name) != f.orig {
        need := true;
      }
      need, thunks, chars := CheckNames(f, need, thunks, chars);
    }
    thunks := thunks + 1;
  }

  /** The sizes of the tables, and whether anything was edited. */
  method CheckImportsNeeded(fs: seq<ImportFile>) returns (need: bool, tables: nat, thunks: nat, chars: nat)
    ensures need <==> exists i | 0 <= i < |fs| :: Edited(fs[i])
    ensures tables == |fs| + 1 && thunks == ThunksOf(fs, |fs|) && chars == CharsOf(fs, |fs|)
  {
    need, tables, thunks, chars := false, 0, 0, 0;
    for i := 0 to |fs|
      invariant need <==> exists k | 0 <= k < i :: Edited(fs[k])
      invariant tables == i && thunks == ThunksOf(fs, i) && chars == CharsOf(fs, i) && chars % 2 == 0
    {
      need, thunks, chars := CheckFile(fs[i], need, thunks, chars);
      tables := tables + 1;
    }
    tables := tables + 1;
  }

  // ---- Filling the tables ----

  ghost predicate Apart(names: NameTable, lookups: ThunkTable, bounds: ThunkTable)
    reads names, names.area, lookups, bounds
  {
    names.Valid() && lookups.Valid() && bounds.Valid() && lookups != bounds && lookups.area != bounds.area
  }

  ghost function View(names: NameTable, lookups: ThunkTable, bounds: ThunkTable): (t: Tables)
    reads names, names.area, lookups, lookups.area, bounds, bounds.area
    requires Apart(names, lookups, bounds)
  {
    Tables(names.Text(), names.addr, lookups.Thunks(), lookups.addr, bounds.Thunks(), bounds.addr)
  }

  lemma HintedFound(t: Tables, u: Tables, n: ImportName)
    requires n.name.Some? && Grows(t, u) && u.names == t.names + Hinted(n.name.value, n.hint)
    ensures ThunkFor(t.nameAddr + |t.names|, n, u)
  {
    var p := Hinted(n.name.value, n.hint);
    assert u.names[|t.names|] == p[0] && u.names[|t.names| + 1] == p[1];
    StringBehind(t.names, p, 2, n.name.value);
  }

  lemma OneMoreThunk(ns: seq<ImportName>, n: nat, t: Tables, u: Tables, k: nat)
    requires n < |ns| && ThunksFor(ns, n, t, k) && Grows(t, u)
    requires |u.lookups| == k + n + 1 && ThunkFor(u.lookups[k + n], ns[n], u)
    ensures ThunksFor(ns, n + 1, u, k)
  {
    ThunksStay(ns, n, t, u, k);
  }

  /** A name and its thunk. */
  method WriteName(n: ImportName, names: NameTable, lookups: ThunkTable, bounds: ThunkTable)
    requires Apart(names, lookups, bounds)
    requires names.used + EntrySize(n) <= names.area.Length && lookups.used < lookups.area.Length
    modifies names`used, names.area, lookups`used, lookups.area
    ensures Apart(names, lookups, bounds)
    ensures Grows(old(View(names, lookups, bounds)), View(names, lookups, bounds))
    ensures lookups.used == old(lookups.used) + 1 && names.used == old(names.used) + EntrySize(n)
    ensures ThunkFor(View(names, lookups, bounds).lookups[old(lookups.used)], n, View(names, lookups, bounds))
  {
    ghost var t := View(names, lookups, bounds);
    var data: nat;
    if n.name.Some? {
      data := names.AllocateHinted(n.name.value, n.hint);
      HintedFound(t, View(names, lookups, bounds), n);
    } else {
      data := ORDINAL_FLAG + n.ordinal;
    }
    ghost var named := View(names, lookups, bounds);
    assert ThunkFor(data, n, named);
    var ignored := lookups.Allocate(data);
    ThunkStays(data, n, named, View(names, lookups, bounds));
  }

  ghost predicate Named(ns: seq<ImportName>, n: nat, was: Tables, t: Tables) {
    n <= |ns| && Grows(was, t) && ThunksFor(ns, n, t, |was.lookups|) &&
    |t.names| == |was.names| + NameSizes(ns, n) && |t.lookups| == |was.lookups| + n
  }

  /** The names of an ordinary file, and their thunks from the next one on. */
  method WriteNames(ns: seq<ImportName>, names: NameTable, lookups: ThunkTable, bounds: ThunkTable)
    requires Apart(names, lookups, bounds)
    requires names.used + NameSizes(ns, |ns|) <= names.area.Length && lookups.used + |ns| <= lookups.area.Length
    modifies names`used, names.area, lookups`used, lookups.area
    ensures Apart(names, lookups, bounds)
    ensures Named(ns, |ns|, old(View(names, lookups, bounds)), View(names, lookups, bounds))
  {
    ghost var was := View(names, lookups, bounds);
    for n := 0 to |ns|
      invariant Apart(names, lookups, bounds)
      invariant Named(ns, n, was, View(names, lookups, bounds))
    {
      ghost var t := View(names, lookups, bounds);
      NameSizesGrow(ns, n + 1);
      WriteName(ns[n], names, lookups, bounds);
      OneMoreThunk(ns, n, t, View(names, lookups, bounds), |was.lookups|);
    }
  }

  /** What a file adds to the tables. */
  ghost predicate Written(f: ImportFile, d: Descriptor, was: Tables, t: Tables, listed: bool) {
    Grows(was, t) && Describes(d, f, t, listed) &&
    |t.names| == |was.names| + FileChars(f) && |t.lookups| == |was.lookups| + FileThunks(f) &&
    |t.bounds| == |was.bounds| + if f.byway then 2 else 0
  }

  /** Two thunks and two bounds of a byway, behind its name. */
  lemma BywayDescribed(f: ImportFile, d: Descriptor, t: Tables, u: Tables, listed: bool)
    requires f.byway && Grows(t, u) && t.nameAddr <= d.name && StringAt(t.names, d.name - t.nameAddr, f.name)
    requires u.lookups == t.lookups + [ORDINAL_FLAG + 1] + [0] && u.bounds == t.bounds + [ORDINAL_FLAG + 1] + [0]
    requires d.lookup == t.lookupAddr + THUNK_SIZE * |t.lookups| && d.first == t.boundAddr + THUNK_SIZE * |t.bounds|
    requires d.forwarder == f.forwarder && listed
    ensures Describes(d, f, u, listed)
  {
    var b := |t.bounds|;
    assert u.bounds[b] == ORDINAL_FLAG + 1 && u.bounds[b + 1] == 0;
  }

  method WriteByway(f: ImportFile, name: nat, names: NameTable, lookups: ThunkTable, bounds: ThunkTable)
    returns (d: Descriptor)
    requires Apart(names, lookups, bounds) && f.byway
    requires lookups.used + 2 <= lookups.area.Length && bounds.used + 2 <= bounds.area.Length
    requires names.addr <= name && StringAt(names.Text(), name - names.addr, f.name)
    modifies lookups`used, lookups.area, bounds`used, bounds.area
    ensures Apart(names, lookups, bounds)
    ensures Grows(old(View(names, lookups, bounds)), View(names, lookups, bounds))
    ensures Describes(d, f, View(names, lookups, bounds), lookups.area.Length > 1)
    ensures lookups.used == old(lookups.used) + 2 && bounds.used == old(bounds.used) + 2
  {
    ghost var t := View(names, lookups, bounds);
    var lookup := lookups.Allocate(ORDINAL_FLAG + 1);
    var first := bounds.Allocate(ORDINAL_FLAG + 1);
    var ignored := lookups.Allocate(0);
    ignored := bounds.Allocate(0);
    d := Descriptor(lookup, f.forwarder, name, first);
    BywayDescribed(f, d, t, View(names, lookups, bounds), true);
  }

  /** An ordinary file, once its thunks and the zero behind them are written. */
  lemma FileDescribed(f: ImportFile, d: Descriptor, named: Tables, t: Tables, u: Tables, listed: bool)
    requires !f.byway && Named(f.names, |f.names|, named, t) && Grows(t, u) && u.lookups == t.lookups + [0]
    requires t.nameAddr <= d.name && StringAt(named.names, d.name - t.nameAddr, f.name)
    requires d.lookup == if listed then t.lookupAddr + THUNK_SIZE * |named.lookups| else 0
    requires d.first == f.firstThunk && d.forwarder == f.forwarder
    ensures Describes(d, f, u, listed)
  {
    ThunksStay(f.names, |f.names|, t, u, |named.lookups|);
  }

  /** A file: its name, its thunks, and its descriptor. */
  method WriteFile(f: ImportFile, names: NameTable, lookups: ThunkTable, bounds: ThunkTable) returns (d: Descriptor)
    requires Apart(names, lookups, bounds)
    requires names.used + FileChars(f) <= names.area.Length && lookups.used + FileThunks(f) <= lookups.area.Length
    requires f.byway ==> bounds.used + 2 <= bounds.area.Length
    modifies names`used, names.area, lookups`used, lookups.area, bounds`used, bounds.area
    ensures Apart(names, lookups, bounds)
    ensures Written(f, d, old(View(names, lookups, bounds)), View(names, lookups, bounds), lookups.area.Length > 1)
  {
    ghost var was := View(names, lookups, bounds);
    var name := names.Allocate(f.name);
    StringBehind(was.names, Padded(f.name), 0, f.name);
    ghost var named := View(names, lookups, bounds);
    if f.byway {
      d := WriteByway(f, name, names, lookups, bounds);
    } else {
      var lookup := lookups.Current();
      WriteNames(f.names, names, lookups, bounds);
      ghost var t := View(names, lookups, bounds);
      var ignored := lookups.Allocate(0);
      d := Descriptor(lookup, f.forwarder, name, f.firstThunk);
      FileDescribed(f, d, named, t, View(names, lookups, bounds), lookups.area.Length > 1);
    }
  }
}
