/** The import tables of a rewritten image, and what a loader reads in them. */
module ImportSpec {
  import opened Prelude

  predicate NoNul(s: seq<Byte>) {
    forall i | 0 <= i < |s| :: s[i] != 0
  }

  type CString = s: seq<Byte> | NoNul(s) witness []
  type Word = w: int | 0 <= w < 0x1_0000

  /** CImageImportName: imported by name, with a hint, or by ordinal. */
  datatype ImportName = ImportName(name: Option<CString>, orig: Option<CString>, hint: Word, ordinal: Word)

  /** CImageImportFile: the imports from a file, or a file inserted beside them (a byway). */
  datatype ImportFile = ImportFile(byway: bool, name: CString, orig: Option<CString>, names: seq<ImportName>,
                                   firstThunk: nat, forwarder: nat)

  /** An import descriptor, with the addresses of its thunks and of its name. */
  datatype Descriptor = Descriptor(lookup: nat, forwarder: nat, name: nat, first: nat)

  /** The tables of the new section, and the addresses they will be loaded at. */
  datatype Tables = Tables(names: seq<Byte>, nameAddr: nat, lookups: seq<nat>, lookupAddr: nat,
                           bounds: seq<nat>, boundAddr: nat)

  const ORDINAL_FLAG := 0x8000_0000_0000_0000
  const THUNK_SIZE := 8

  // ---- What a loader reads ----

  datatype Import = Named(hint: nat, name: seq<Byte>) | ByOrdinal(ordinal: nat) | Broken

  /** A file and its imports; no imports when the descriptor has no lookup table. */
  datatype Loaded = Loaded(name: seq<Byte>, imports: Option<seq<Import>>)

  /** The string at an offset. */
  function ReadString(area: seq<Byte>, at: nat): seq<Byte>
    decreases |area| - at
  {
    if at >= |area| || area[at] == 0 then [] else [area[at]] + ReadString(area, at + 1)
  }

  /** A thunk with bit 63 set has an ordinal in its low 16 bits; any other is the address of a hint and a name. */
  function ReadImport(thunk: nat, t: Tables): Import {
    if thunk >= 0x8000_0000_0000_0000 then ByOrdinal(thunk % 0x1_0000)
    else if t.nameAddr <= thunk && thunk - t.nameAddr + 2 <= |t.names| then
      Named(U16(t.names, thunk - t.nameAddr), ReadString(t.names, thunk - t.nameAddr + 2))
    else Broken
  }

  /** The imports from thunk k up to a zero thunk. */
  function ReadImports(t: Tables, k: nat): seq<Import>
    decreases |t.lookups| - k
  {
    if k >= |t.lookups| || t.lookups[k] == 0 then []
    else [ReadImport(t.lookups[k], t)] + ReadImports(t, k + 1)
  }

  function LoadFile(d: Descriptor, t: Tables): Loaded {
    var name := if t.nameAddr <= d.name then ReadString(t.names, d.name - t.nameAddr) else [];
    Loaded(name, if t.lookupAddr <= d.lookup then Some(ReadImports(t, (d.lookup - t.lookupAddr) / 8))
                 else None)
  }

  /** The files from descriptor i up to one without a name. */
  function Load(ds: seq<Descriptor>, t: Tables, i: nat): seq<Loaded>
    decreases |ds| - i
  {
    if i >= |ds| || ds[i].name == 0 then [] else [LoadFile(ds[i], t)] + Load(ds, t, i + 1)
  }

  // ---- What the list says ----

  function Meant(n: ImportName): Import {
    if n.name.Some? then Named(n.hint, n.name.value) else ByOrdinal(n.ordinal)
  }

  function MeantAll(ns: seq<ImportName>, j: nat): seq<Import>
    decreases |ns| - j
  {
    if j >= |ns| then [] else [Meant(ns[j])] + MeantAll(ns, j + 1)
  }

  /** A byway imports its ordinal 1. Without a listing, the imports are left to the other thunks. */
  function MeantFile(f: ImportFile, listed: bool): Loaded {
    Loaded(f.name, if !listed then None else Some(if f.byway then [ByOrdinal(1)] else MeantAll(f.names, 0)))
  }

  function MeantFiles(fs: seq<ImportFile>, listed: bool, i: nat): seq<Loaded>
    decreases |fs| - i
  {
    if i >= |fs| then [] else [MeantFile(fs[i], listed)] + MeantFiles(fs, listed, i + 1)
  }

  // ---- What stands in the tables ----

  predicate StringAt(area: seq<Byte>, at: nat, s: seq<Byte>) {
    at + |s| < |area| && area[at + |s|] == 0 && forall i | 0 <= i < |s| :: area[at + i] == s[i]
  }

  /** A thunk that stands for an import. */
  predicate ThunkFor(thunk: nat, n: ImportName, t: Tables) {
    match n.name
    case None => thunk == ORDINAL_FLAG + n.ordinal
    case Some(s) =>
      t.nameAddr <= thunk && thunk - t.nameAddr + 2 <= |t.names| &&
      U16(t.names, thunk - t.nameAddr) == n.hint && StringAt(t.names, thunk - t.nameAddr + 2, s)
  }

  /** From thunk k on, thunks for the first n imports. */
  predicate ThunksFor(ns: seq<ImportName>, n: nat, t: Tables, k: nat) {
    n <= |ns| && k + n <= |t.lookups| && forall j | 0 <= j < n :: ThunkFor(t.lookups[k + j], ns[j], t)
  }

  /** The thunks of a file, from thunk k on, with the zero that ends them. */
  predicate Listed(f: ImportFile, t: Tables, k: nat) {
    if f.byway then k + 1 < |t.lookups| && t.lookups[k] == ORDINAL_FLAG + 1 && t.lookups[k + 1] == 0
    else ThunksFor(f.names, |f.names|, t, k) && k + |f.names| < |t.lookups| && t.lookups[k + |f.names|] == 0
  }

  /** A byway has its own address table; another file keeps the one it had. */
  predicate Bound(f: ImportFile, d: Descriptor, t: Tables) {
    if !f.byway then d.first == f.firstThunk
    else exists b | 0 <= b < |t.bounds| - 1 ::
           d.first == t.boundAddr + THUNK_SIZE * b && t.bounds[b] == ORDINAL_FLAG + 1 && t.bounds[b + 1] == 0
  }

  /** A descriptor describes a file; its lookup table is where the file's thunks are, or left out. */
  predicate Describes(d: Descriptor, f: ImportFile, t: Tables, listed: bool) {
    && t.nameAddr <= d.name && StringAt(t.names, d.name - t.nameAddr, f.name)
    && d.forwarder == f.forwarder && Bound(f, d, t)
    && if !listed then d.lookup == 0
       else t.lookupAddr <= d.lookup && (d.lookup - t.lookupAddr) % THUNK_SIZE == 0
            && Listed(f, t, (d.lookup - t.lookupAddr) / THUNK_SIZE)
  }

  /** Writing only adds to the tables. */
  predicate Grows(t: Tables, u: Tables) {
    t.names <= u.names && t.lookups <= u.lookups && t.bounds <= u.bounds &&
    t.nameAddr == u.nameAddr && t.lookupAddr == u.lookupAddr && t.boundAddr == u.boundAddr
  }

  lemma ThunkStays(thunk: nat, n: ImportName, t: Tables, u: Tables)
    requires ThunkFor(thunk, n, t) && Grows(t, u)
    ensures ThunkFor(thunk, n, u)
  {
    if n.name.Some? {
      var at := thunk - t.nameAddr;
      assert u.names[at] == t.names[at] && u.names[at + 1] == t.names[at + 1];
    }
  }

  lemma ThunksStay(ns: seq<ImportName>, n: nat, t: Tables, u: Tables, k: nat)
    requires ThunksFor(ns, n, t, k) && Grows(t, u)
    ensures ThunksFor(ns, n, u, k)
  {
    forall j | 0 <= j < n
      ensures ThunkFor(u.lookups[k + j], ns[j], u)
    {
      assert u.lookups[k + j] == t.lookups[k + j];
      ThunkStays(t.lookups[k + j], ns[j], t, u);
    }
  }

  /** What has been written for a file stays as more is written. */
  lemma DescribesStays(d: Descriptor, f: ImportFile, t: Tables, u: Tables, listed: bool)
    requires Describes(d, f, t, listed) && Grows(t, u)
    ensures Describes(d, f, u, listed)
  {
    if f.byway {
      var b :| 0 <= b < |t.bounds| - 1 && d.first == t.boundAddr + THUNK_SIZE * b &&
               t.bounds[b] == ORDINAL_FLAG + 1 && t.bounds[b + 1] == 0;
      assert u.bounds[b] == ORDINAL_FLAG + 1;
    } else if listed {
      ThunksStay(f.names, |f.names|, t, u, (d.lookup - t.lookupAddr) / THUNK_SIZE);
    }
  }

  // ---- What is in the tables is read back ----

  lemma {:induction false} StringReads(area: seq<Byte>, at: nat, s: seq<Byte>, i: nat)
    requires NoNul(s) && StringAt(area, at, s) && i <= |s|
    ensures ReadString(area, at + i) == s[i..]
    decreases |s| - i
  {
    if i < |s| {
      StringReads(area, at, s, i + 1);
      assert s[i..] == [s[i]] + s[i + 1..];
    }
  }

  lemma ThunkReads(thunk: nat, n: ImportName, t: Tables)
    requires ThunkFor(thunk, n, t) && 0 < t.nameAddr && t.nameAddr + |t.names| < ORDINAL_FLAG
    ensures thunk != 0 && ReadImport(thunk, t) == Meant(n)
  {
    if n.name.Some? {
      StringReads(t.names, thunk - t.nameAddr + 2, n.name.value, 0);
    }
  }

  lemma {:induction false} ThunksRead(ns: seq<ImportName>, t: Tables, k: nat, j: nat)
    requires ThunksFor(ns, |ns|, t, k) && k + |ns| < |t.lookups| && t.lookups[k + |ns|] == 0 && j <= |ns|
    requires 0 < t.nameAddr && t.nameAddr + |t.names| < ORDINAL_FLAG
    ensures ReadImports(t, k + j) == MeantAll(ns, j)
    decreases |ns| - j
  {
    if j < |ns| {
      ThunkReads(t.lookups[k + j], ns[j], t);
      ThunksRead(ns, t, k, j + 1);
    }
  }

  lemma BywayReads(t: Tables, k: nat)
    requires k + 1 < |t.lookups| && t.lookups[k] == ORDINAL_FLAG + 1 && t.lookups[k + 1] == 0
    ensures ReadImports(t, k) == [ByOrdinal(1)]
  {
    assert ReadImports(t, k + 1) == [];
  }

  /** A loader finds what the list says about a file. */
  lemma FileReads(d: Descriptor, f: ImportFile, t: Tables, listed: bool)
    requires Describes(d, f, t, listed) && 0 < t.nameAddr && t.nameAddr + |t.names| < ORDINAL_FLAG
    requires 0 < t.lookupAddr
    ensures LoadFile(d, t) == MeantFile(f, listed)
  {
    StringReads(t.names, d.name - t.nameAddr, f.name, 0);
    assert f.name[0..] == f.name;
    if listed {
      var k := (d.lookup - t.lookupAddr) / THUNK_SIZE;
      if f.byway {
        BywayReads(t, k);
      } else {
        ThunksRead(f.names, t, k, 0);
      }
    }
  }

  /** A descriptor for each file, and one of zeros behind them. */
  predicate Complete(fs: seq<ImportFile>, ds: seq<Descriptor>, t: Tables, listed: bool) {
    |ds| == |fs| + 1 && ds[|fs|] == Descriptor(0, 0, 0, 0) &&
    forall i | 0 <= i < |fs| :: Describes(ds[i], fs[i], t, listed)
  }

  lemma {:induction false} ListReads(fs: seq<ImportFile>, ds: seq<Descriptor>, t: Tables, listed: bool, i: nat)
    requires Complete(fs, ds, t, listed) && i <= |fs|
    requires 0 < t.nameAddr && t.nameAddr + |t.names| < ORDINAL_FLAG && 0 < t.lookupAddr
    ensures Load(ds, t, i) == MeantFiles(fs, listed, i)
    decreases |fs| - i
  {
    if i < |fs| {
      FileReads(ds[i], fs[i], t, listed);
      ListReads(fs, ds, t, listed, i + 1);
    }
  }
}
