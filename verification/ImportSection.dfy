/** The section that is added to an image: its pieces, one behind the other, and the imports written into them.
    A clause `P() == true` is proved as one fact, and not conjunct by conjunct, which keeps the proofs quick. */
module ImportSection {
  import opened Prelude
  import opened ImportSpec
  import opened ImportTables
  import opened ImportWriter

  const HEADER_SIZE := 64
  const DESCRIPTOR_SIZE := 20

  /** Rounded up to a multiple. */
  function Align(a: nat, size: nat): (r: nat)
    requires 0 < size
    ensures a <= r < a + size
  {
    if a % size == 0 then a else a + (size - a % size)
  }

  function Quads(a: nat): (q: nat)
    ensures a <= 8 * q < a + 8
  {
    (a + 7) / 8
  }

  function QuadAlign(a: nat): nat {
    8 * Quads(a)
  }

  /** A piece of the output buffer. */
  datatype Piece = Piece(at: nat, size: nat)

  /** The sizes of the pieces, in the order they are handed out. */
  datatype Sizes = Sizes(prePE: nat, thunks: nat, chars: nat, data: nat, tables: nat)

  /** What the pieces take. */
  function Total(z: Sizes): nat {
    HEADER_SIZE + QuadAlign(z.prePE) + QuadAlign(THUNK_SIZE * z.thunks) + QuadAlign(THUNK_SIZE * z.thunks) +
    QuadAlign(z.chars) + QuadAlign(z.data) + QuadAlign(DESCRIPTOR_SIZE * z.tables)
  }

  /** What is asked of the buffer: the copy of what comes before the PE header is not rounded up. */
  function Request(z: Sizes): nat {
    HEADER_SIZE + z.prePE + QuadAlign(THUNK_SIZE * z.thunks) + QuadAlign(THUNK_SIZE * z.thunks) +
    QuadAlign(z.chars) + QuadAlign(z.data) + QuadAlign(DESCRIPTOR_SIZE * z.tables)
  }

  function Grown(capacity: nat, request: nat, fileAlignment: nat): nat
    requires 0 < fileAlignment
  {
    if capacity >= request then capacity
    else Align(if request < 1024 then 1024 else request, fileAlignment)
  }

  /** What comes before the PE header was rounded up when it was read, so the pieces take what is asked for. */
  lemma RequestIsTotal(z: Sizes, lfanew: nat)
    requires z.prePE == QuadAlign(lfanew)
    ensures Request(z) == Total(z)
  {
  }

  predicate Disjoint(p: Piece, q: Piece) {
    p.at + p.size <= q.at || q.at + q.size <= p.at
  }

  datatype Pieces = Pieces(head: Piece, prePE: Piece, lookup: Piece, bound: Piece, names: Piece, data: Piece,
                           table: Piece)

  function All(ps: Pieces): seq<Piece> {
    [ps.head, ps.prePE, ps.lookup, ps.bound, ps.names, ps.data, ps.table]
  }

  predicate Sized(z: Sizes, ps: Pieces) {
    && ps.head.size == 64 && ps.prePE.size == z.prePE && ps.lookup.size == ps.bound.size == 8 * z.thunks
    && ps.names.size == z.chars && ps.data.size == z.data && ps.table.size == 20 * z.tables
  }

  /** The pieces have the sizes asked for, are apart, and lie in the buffer. */
  predicate LaidOut(z: Sizes, ps: Pieces, capacity: nat) {
    && Sized(z, ps)
    && (forall i | 0 <= i < 7 :: All(ps)[i].at + All(ps)[i].size <= capacity)
    && forall i, j | 0 <= i < j < 7 :: Disjoint(All(ps)[i], All(ps)[j])
  }

  function End(p: Piece): nat {
    p.at + p.size
  }

  /** Pieces one behind the other. */
  lemma {:induction false} Behind(s: seq<Piece>, i: nat, j: nat)
    requires forall k | 0 < k < |s| :: End(s[k - 1]) <= s[k].at
    requires i <= j < |s|
    ensures End(s[i]) <= End(s[j]) && (i < j ==> End(s[i]) <= s[j].at)
    decreases j
  {
    if i < j {
      Behind(s, i, j - 1);
    }
  }

  lemma InOrder(z: Sizes, ps: Pieces, capacity: nat)
    requires Sized(z, ps)
    requires End(ps.head) <= ps.prePE.at && End(ps.prePE) <= ps.lookup.at && End(ps.lookup) <= ps.bound.at
    requires End(ps.bound) <= ps.names.at && End(ps.names) <= ps.data.at && End(ps.data) <= ps.table.at
    requires End(ps.table) <= capacity
    ensures LaidOut(z, ps, capacity)
  {
    var s := All(ps);
    forall k | 0 < k < 7
      ensures End(s[k - 1]) <= s[k].at
    {
    }
    forall i | 0 <= i < 7
      ensures End(s[i]) <= capacity && forall j | i < j < 7 :: Disjoint(s[i], s[j])
    {
      Behind(s, i, 6);
      forall j | i < j < 7
        ensures Disjoint(s[i], s[j])
      {
        Behind(s, i, j);
      }
    }
  }

  datatype Section = Section(pieces: Pieces, tables: Tables, descriptors: seq<Descriptor>)

  /** The output buffer of an image. */
  class Output {
    const fileAlignment: nat
    const virtAddr: nat
    var capacity: nat
    var used: nat

    constructor (fileAlignment: nat, virtAddr: nat, capacity: nat)
      ensures this.fileAlignment == fileAlignment && this.virtAddr == virtAddr
      ensures this.capacity == capacity && used == 0
    {
      this.fileAlignment, this.virtAddr, this.capacity, used := fileAlignment, virtAddr, capacity, 0;
    }

    method SizeOutputBuffer(request: nat)
      requires 0 < fileAlignment
      modifies this`capacity
      ensures capacity == Grown(old(capacity), request, fileAlignment) && request <= capacity
    {
      if capacity < request {
        capacity := Align(if request < 1024 then 1024 else request, fileAlignment);
      }
    }

    /** The next piece, and whether it is in the buffer; the pieces before it are too when it is. */
    method AllocateOutput(size: nat) returns (p: Piece, ok: bool)
      modifies this`used
      ensures p == Piece(old(used), size) && used == old(used) + QuadAlign(size) && ok == (used <= capacity)
    {
      p := Piece(used, size);
      used := used + QuadAlign(size);
      ok := used <= capacity;
    }

    /** All pieces in the order of the section. That the thunk and name tables are in the buffer is not looked at. */
    method Layout(z: Sizes) returns (r: Option<Pieces>)
      requires used == 0
      modifies this`used
      ensures r.Some? <==> Total(z) <= capacity
      ensures r.Some? ==> LaidOut(z, r.value, capacity) && used == Total(z)
      ensures r.Some? ==> 0 < r.value.lookup.at && 0 < r.value.names.at && End(r.value.names) <= capacity
    {
      var head, ok := AllocateOutput(HEADER_SIZE);
      if !ok {
        return None;
      }
      var prePE;
      prePE, ok := AllocateOutput(z.prePE);
      if !ok {
        return None;
      }
      var lookup, bound, name, data, table;
      lookup, ok := AllocateOutput(THUNK_SIZE * z.thunks);
      bound, ok := AllocateOutput(THUNK_SIZE * z.thunks);
      name, ok := AllocateOutput(z.chars);
      data, ok := AllocateOutput(z.data);
      if !ok {
        return None;
      }
      table, ok := AllocateOutput(DESCRIPTOR_SIZE * z.tables);
      if !ok {
        return None;
      }
      r := Some(Pieces.Pieces(head, prePE, lookup, bound, name, data, table));
      InOrder(z, r.value, capacity);
    }

    /** The import tables of a section, in pieces of the sizes found beforehand. For every list of imports all pieces
        are in the buffer, every name and thunk finds room, and a loader reads the list back. `lfanew` is where the
        PE header was in the image. */
    method WriteImports(fs: seq<ImportFile>, lfanew: nat, data: nat) returns (r: Option<Section>)
      requires 0 < fileAlignment && used == 0
      modifies this`capacity, this`used
      ensures var z := SizesOf(fs, QuadAlign(lfanew), data);
              && capacity == Grown(old(capacity), Request(z), fileAlignment)
              && r.Some? && LaidOut(z, r.value.pieces, capacity) == true && Filled(fs, r.value, virtAddr) == true
      ensures virtAddr + capacity < ORDINAL_FLAG && fs != [] ==> ReadsBack(fs, r.value)
    {
      var need, tables, thunks, chars := CheckImportsNeeded(fs);
      var z := Sizes(QuadAlign(lfanew), thunks, chars, data, tables);
      RequestIsTotal(z, lfanew);
      assert z == SizesOf(fs, QuadAlign(lfanew), data);
      SizeOutputBuffer(Request(z));
      var ps := Layout(z);
      if ps.None? {
        return None;
      }
      var s := WriteTables(fs, thunks, chars, ps.value, virtAddr);
      if virtAddr + capacity < ORDINAL_FLAG && fs != [] {
        ImportsReadBack(fs, s, virtAddr, capacity);
      }
      r := Some(s);
    }
  }

  function SizesOf(fs: seq<ImportFile>, prePE: nat, data: nat): Sizes {
    Sizes(prePE, ThunksOf(fs, |fs|), CharsOf(fs, |fs|), data, |fs| + 1)
  }

  /** The name and lookup tables fill their pieces to the end, and hold what the descriptors say. */
  predicate Filled(fs: seq<ImportFile>, s: Section, virtAddr: nat) {
    && s.tables.lookupAddr == virtAddr + s.pieces.lookup.at && s.tables.boundAddr == virtAddr + s.pieces.bound.at
    && s.tables.nameAddr == virtAddr + s.pieces.names.at
    && THUNK_SIZE * |s.tables.lookups| == s.pieces.lookup.size && THUNK_SIZE * |s.tables.bounds| <= s.pieces.bound.size
    && |s.tables.names| == s.pieces.names.size
    && Complete(fs, s.descriptors, s.tables, |s.tables.lookups| > 1)
  }

  /** What has been written for the first n files. */
  ghost predicate Progress(fs: seq<ImportFile>, ds: seq<Descriptor>, n: nat, t: Tables, listed: bool) {
    n <= |fs| && |ds| == n && |t.names| == CharsOf(fs, n) && |t.lookups| == ThunksOf(fs, n) &&
      |t.bounds| <= |t.lookups| &&
    forall i | 0 <= i < n :: Describes(ds[i], fs[i], t, listed)
  }

  lemma OneMoreFile(fs: seq<ImportFile>, ds: seq<Descriptor>, n: nat, d: Descriptor, t: Tables, u: Tables, listed: bool)
    requires n < |fs| && Progress(fs, ds, n, t, listed) && Written(fs[n], d, t, u, listed)
    ensures Progress(fs, ds + [d], n + 1, u, listed)
  {
    forall i | 0 <= i < n
      ensures Describes(ds[i], fs[i], u, listed)
    {
      DescribesStays(ds[i], fs[i], t, u, listed);
    }
  }

  /** The next file has the room it needs. */
  lemma RoomForNext(fs: seq<ImportFile>, n: nat)
    requires n < |fs|
    ensures CharsOf(fs, n) + FileChars(fs[n]) <= CharsOf(fs, |fs|)
    ensures ThunksOf(fs, n) + FileThunks(fs[n]) <= ThunksOf(fs, |fs|)
  {
    SizesGrow(fs, n + 1);
  }

  method WriteNext(fs: seq<ImportFile>, ds0: seq<Descriptor>, n: nat,
                   names: NameTable, lookups: ThunkTable, bounds: ThunkTable) returns (ds: seq<Descriptor>)
    requires n < |fs| && Apart(names, lookups, bounds)
    requires names.area.Length == CharsOf(fs, |fs|) && lookups.area.Length == bounds.area.Length == ThunksOf(fs, |fs|)
    requires Progress(fs, ds0, n, View(names, lookups, bounds), lookups.area.Length > 1)
    modifies names`used, names.area, lookups`used, lookups.area, bounds`used, bounds.area
    ensures Apart(names, lookups, bounds)
    ensures Progress(fs, ds, n + 1, View(names, lookups, bounds), lookups.area.Length > 1)
  {
    RoomForNext(fs, n);
    ghost var was := View(names, lookups, bounds);
    var d := WriteFile(fs[n], names, lookups, bounds);
    OneMoreFile(fs, ds0, n, d, was, View(names, lookups, bounds), lookups.area.Length > 1);
    ds := ds0 + [d];
  }

  lemma AllFiles(fs: seq<ImportFile>, ds: seq<Descriptor>, t: Tables, listed: bool)
    requires Progress(fs, ds, |fs|, t, listed)
    ensures Complete(fs, ds + [Descriptor(0, 0, 0, 0)], t, listed)
  {
  }

  /** The loop over all files. */
  method WriteAll(fs: seq<ImportFile>, names: NameTable, lookups: ThunkTable, bounds: ThunkTable)
    returns (ds: seq<Descriptor>)
    requires Apart(names, lookups, bounds) && names.used == lookups.used == bounds.used == 0
    requires names.area.Length == CharsOf(fs, |fs|) && lookups.area.Length == bounds.area.Length == ThunksOf(fs, |fs|)
    modifies names`used, names.area, lookups`used, lookups.area, bounds`used, bounds.area
    ensures Apart(names, lookups, bounds)
    ensures Progress(fs, ds, |fs|, View(names, lookups, bounds), lookups.area.Length > 1)
  {
    ds := [];
    for n := 0 to |fs|
      invariant Apart(names, lookups, bounds)
      invariant Progress(fs, ds, n, View(names, lookups, bounds), lookups.area.Length > 1)
    {
      ds := WriteNext(fs, ds, n, names, lookups, bounds);
    }
  }

  /** The tables of a section with pieces of the right sizes: every name and every thunk finds room. */
  method WriteTables(fs: seq<ImportFile>, thunks: nat, chars: nat, ps: Pieces, virtAddr: nat) returns (r: Section)
    requires thunks == ThunksOf(fs, |fs|) && chars == CharsOf(fs, |fs|)
    requires ps.lookup.size == ps.bound.size == THUNK_SIZE * thunks && ps.names.size == chars
    ensures r.pieces == ps
    ensures |r.descriptors| == |fs| + 1 && |r.tables.names| == chars && |r.tables.lookups| == thunks
    ensures Filled(fs, r, virtAddr)
  {
    var lookups := new ThunkTable(thunks, virtAddr + ps.lookup.at);
    var bounds := new ThunkTable(thunks, virtAddr + ps.bound.at);
    var names := new NameTable(chars, virtAddr + ps.names.at);
    var ds := WriteAll(fs, names, lookups, bounds);
    var t := Tables(names.area[..names.used], names.addr, lookups.area[..lookups.used], lookups.addr,
                    bounds.area[..bounds.used], bounds.addr);
    AllFiles(fs, ds, t, thunks > 1);
    r := Section(ps, t, ds + [Descriptor(0, 0, 0, 0)]);
  }

  lemma {:induction false} ThunksEnough(fs: seq<ImportFile>, n: nat)
    requires n <= |fs|
    ensures ThunksOf(fs, n) >= n
    ensures ThunksOf(fs, n) == n <==> forall i | 0 <= i < n :: !fs[i].byway && fs[i].names == []
  {
    if n > 0 {
      ThunksEnough(fs, n - 1);
    }
  }

  /** A loader that reads the tables finds every file in the list, with its imports in order; only a list of a single
      ordinary file without imports is left without a lookup table. */
  predicate ReadsBack(fs: seq<ImportFile>, s: Section)
    requires fs != []
  {
    var single := |fs| == 1 && !fs[0].byway && fs[0].names == [];
    Load(s.descriptors, s.tables, 0) == MeantFiles(fs, !single, 0)
  }

  lemma ImportsReadBack(fs: seq<ImportFile>, s: Section, virtAddr: nat, capacity: nat)
    requires Filled(fs, s, virtAddr) && s.pieces.lookup.size == THUNK_SIZE * ThunksOf(fs, |fs|) && fs != []
    requires 0 < s.pieces.lookup.at && 0 < s.pieces.names.at && End(s.pieces.names) <= capacity
    requires virtAddr + capacity < ORDINAL_FLAG
    ensures ReadsBack(fs, s)
  {
    ThunksEnough(fs, |fs|);
    ListReads(fs, s.descriptors, s.tables, |s.tables.lookups| > 1, 0);
  }
}
