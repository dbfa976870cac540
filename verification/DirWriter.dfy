/** Directories as they are written, and that reading them yields what was written. */
module DirWriter {
  import opened Prelude
  import opened LittleEndian
  import opened Image
  import opened Dir
  import opened DirListing
  import opened DirBytes

  /** An entry: the offset of its inode in its metadata block, how far its number is from that of its run, its kind and
      its name. */
  datatype Entry = Entry(offset: nat, delta: int, kind: nat, name: seq<Byte>)

  /** The entries whose inodes are in one metadata block of the inode table, and that block. */
  datatype Run = Run(startBlock: nat, number: nat, entries: seq<Entry>)

  predicate IsEntry(e: Entry) {
    e.offset < 0x1_0000 && -0x8000 <= e.delta < 0x8000 && e.kind < 0x1_0000 && 0 < |e.name| <= 0x1_0000
  }

  predicate IsRun(r: Run) {
    && r.startBlock < TWO32 && r.number < TWO32 && 0 < |r.entries| < TWO32
    && AreEntries(r.entries)
  }

  predicate AreEntries(es: seq<Entry>) {
    es == [] || (IsEntry(es[0]) && AreEntries(es[1..]))
  }

  predicate AreRuns(rs: seq<Run>) {
    rs == [] || (IsRun(rs[0]) && AreRuns(rs[1..]))
  }

  // ---- Writing ----

  /** squashfs_dir_entry and the name behind it. */
  function EntryBytes(e: Entry): seq<Byte>
    requires IsEntry(e)
  {
    Little(e.offset, 2) + Little(e.delta % 0x1_0000, 2) + Little(e.kind, 2) + Little(|e.name| - 1, 2) + e.name
  }

  function EntriesBytes(es: seq<Entry>): seq<Byte>
    requires AreEntries(es)
  {
    if es == [] then [] else EntryBytes(es[0]) + EntriesBytes(es[1..])
  }

  /** squashfs_dir_header. */
  function HeaderBytes(r: Run): seq<Byte>
    requires IsRun(r)
  {
    Little(|r.entries| - 1, 4) + Little(r.startBlock, 4) + Little(r.number, 4)
  }

  /** A directory: its runs, one behind the other. */
  function DirectoryBytes(rs: seq<Run>): seq<Byte>
    requires AreRuns(rs)
  {
    if rs == [] then [] else HeaderBytes(rs[0]) + EntriesBytes(rs[0].entries) + DirectoryBytes(rs[1..])
  }

  /** squashfs_dir_index. */
  function ItemBytes(index: nat, startBlock: nat, nameSize: nat): seq<Byte>
    requires 0 < nameSize
  {
    Little(index, 4) + Little(startBlock, 4) + Little(nameSize - 1, 4)
  }

  // ---- Reading ----

  /** The entry read is the one written: its inode is in the block of the run, at its offset, and its number is as far
      from that of the run as it was to be, modulo 2^32. */
  predicate Shows(d: Dirent, r: Run, e: Entry) {
    && d.inode / 0x1_0000 == r.startBlock && d.inode % 0x1_0000 == e.offset
    && d.number < TWO32 && (d.number - r.number - e.delta) % TWO32 == 0
    && d.kind == e.kind && d.name == e.name
  }

  lemma ItemComesBack(index: nat, startBlock: nat, nameSize: nat)
    requires index < TWO32 && startBlock < TWO32 && 0 < nameSize < TWO32
    ensures ItemOf(ItemBytes(index, startBlock, nameSize)) == IndexItem(index, startBlock, nameSize)
  {
    var s := ItemBytes(index, startBlock, nameSize);
    Reads32(s, 0, index);
    Reads32(s, 4, startBlock);
    Reads32(s, 8, nameSize - 1);
  }

  lemma HeaderComesBack(r: Run)
    requires IsRun(r)
    ensures HeaderOf(HeaderBytes(r)) == Header(|r.entries|, r.startBlock, r.number)
  {
    var s := HeaderBytes(r);
    Reads32(s, 0, |r.entries| - 1);
    Reads32(s, 4, r.startBlock);
    Reads32(s, 8, r.number);
  }

  /** Counts are read modulo 2^32: with the largest one written, a run has no entry, and an index entry no name. */
  lemma CountWraps(startBlock: nat, number: nat)
    requires startBlock < TWO32 && number < TWO32
    ensures HeaderOf(Little(TWO32 - 1, 4) + Little(startBlock, 4) + Little(number, 4)).count == 0
    ensures ItemOf(Little(number, 4) + Little(startBlock, 4) + Little(TWO32 - 1, 4)).nameSize == 0
  {
    Reads32(Little(TWO32 - 1, 4) + Little(startBlock, 4) + Little(number, 4), 0, TWO32 - 1);
    Reads32(Little(number, 4) + Little(startBlock, 4) + Little(TWO32 - 1, 4), 8, TWO32 - 1);
  }

  lemma EntryComesBack(h: Header, r: Run, e: Entry, raw: seq<Byte>, from: nat, to: nat)
    requires IsEntry(e) && IsRun(r) && h.startBlock == r.startBlock && h.number == r.number
    requires raw == EntryBytes(e)[..ENTRY_SIZE]
    ensures NameSize(raw) == |e.name| && Shows(EntryOf(h, raw, e.name, from, to), r, e)
  {
    var s := Little(e.offset, 2) + Little(e.delta % 0x1_0000, 2) + Little(e.kind, 2) + Little(|e.name| - 1, 2);
    assert raw == s;
    Reads16(raw, 0, e.offset);
    Reads16(raw, 2, e.delta % 0x1_0000);
    Reads16(raw, 4, e.kind);
    Reads16(raw, 6, |e.name| - 1);
    assert S16(e.delta % 0x1_0000) == e.delta;
    Apart(r.number + e.delta);
  }

  lemma Apart(n: int)
    ensures (n % TWO32 - n) % TWO32 == 0
  {
    assert n % TWO32 - n == -(n / TWO32) * TWO32;
    Multiple(-(n / TWO32));
  }

  lemma Multiple(k: int)
    ensures k * TWO32 % TWO32 == 0
  {
  }

  // ---- Listing what was written ----

  /** All entries, each with its run. */
  function Written(rs: seq<Run>): seq<(Run, Entry)> {
    if rs == [] then [] else seq(|rs[0].entries|, k requires 0 <= k < |rs[0].entries| => (rs[0], rs[0].entries[k])) +
                             Written(rs[1..])
  }

  /** The entries read, in front of others, are those written. */
  ghost predicate ShowAll(ds: seq<Dirent>, r: Run, es: seq<Entry>, rest: seq<Dirent>) {
    && |ds| == |es| + |rest| && ds[|es|..] == rest
    && forall k | 0 <= k < |es| :: Shows(ds[k], r, es[k])
  }

  /** One entry is read from its bytes. */
  lemma EntryStep(b: seq<Byte>, at: nat, r: Run, e: Entry, tail: seq<Byte>, count: nat)
    requires IsRun(r) && IsEntry(e) && at <= |b| && b[at..] == EntryBytes(e) + tail
    ensures var h, to := Header(count + 1, r.startBlock, r.number), at + |EntryBytes(e)|;
            var step := StepIn(b, Pos(at, h));
            && step.Yields? && step.next == Pos(to, Header(count, r.startBlock, r.number))
            && Shows(step.entry, r, e) && to <= |b| && b[to..] == tail
  {
    var h, bytes := Header(count + 1, r.startBlock, r.number), EntryBytes(e);
    var mid, to: nat := at + ENTRY_SIZE, at + |bytes|;
    assert b[at..mid] == b[at..][..ENTRY_SIZE] == bytes[..ENTRY_SIZE];
    assert b[mid..to] == b[at..][ENTRY_SIZE..|bytes|] == e.name;
    assert b[to..] == b[at..][|bytes|..] == tail;
    EntryComesBack(h, r, e, b[at..mid], at, to);
  }

  lemma ShowMore(d: Dirent, ds: seq<Dirent>, r: Run, es: seq<Entry>, rest: seq<Dirent>)
    requires es != [] && Shows(d, r, es[0]) && ShowAll(ds, r, es[1..], rest)
    ensures ShowAll([d] + ds, r, es, rest)
  {
    var all := [d] + ds;
    assert all[|es|..] == ds[|es| - 1..];
    forall k | 0 <= k < |es|
      ensures Shows(all[k], r, es[k])
    {
      assert k > 0 ==> all[k] == ds[k - 1] && es[k] == es[1..][k - 1];
    }
  }

  /** The stream steps through the bytes. */
  ghost predicate IsIn(d: Stream, b: seq<Byte>, p: Pos) {
    d.step(p) == StepIn(b, p)
  }

  lemma EntryListed(b: seq<Byte>, d: Stream, at: nat, to: nat, r: Run, e: Entry, es: seq<Entry>, tail: seq<Byte>,
                    more: Option<seq<Dirent>>, rest: seq<Dirent>)
    requires Steps(d) && IsIn(d, b, Pos(at, Header(|es| + 1, r.startBlock, r.number)))
    requires IsRun(r) && IsEntry(e) && at <= |b| && b[at..] == EntryBytes(e) + tail && to == at + |EntryBytes(e)|
    requires more == Listing(d, Pos(to, Header(|es|, r.startBlock, r.number)))
    requires more.Some? && ShowAll(more.value, r, es, rest)
    ensures var all := Listing(d, Pos(at, Header(|es| + 1, r.startBlock, r.number)));
            all.Some? && ShowAll(all.value, r, [e] + es, rest)
  {
    var step := d.step(Pos(at, Header(|es| + 1, r.startBlock, r.number)));
    EntryStep(b, at, r, e, tail, |es|);
    assert ([e] + es)[1..] == es;
    ShowMore(step.entry, more.value, r, [e] + es, rest);
  }

  lemma Behind(b: seq<Byte>, at: nat, s: seq<Byte>, tail: seq<Byte>)
    requires at <= |b| && b[at..] == s + tail
    ensures at + |s| <= |b| && b[at + |s|..] == tail
  {
    assert b[at + |s|..] == b[at..][|s|..];
  }

  lemma EntriesSplit(es: seq<Entry>, tail: seq<Byte>)
    requires es != [] && AreEntries(es)
    ensures EntriesBytes(es) + tail == EntryBytes(es[0]) + (EntriesBytes(es[1..]) + tail)
    ensures |EntriesBytes(es)| == |EntryBytes(es[0])| + |EntriesBytes(es[1..])|
  {
    SumOfThree(EntryBytes(es[0]), EntriesBytes(es[1..]), tail);
  }

  lemma {:induction false} EntriesListed(b: seq<Byte>, d: Stream, at: nat, end: nat, r: Run, es: seq<Entry>,
                                         tail: seq<Byte>, rest: seq<Dirent>)
    requires Steps(d) && (forall p: Pos {:trigger IsIn(d, b, p)} :: IsIn(d, b, p))
    requires IsRun(r) && AreEntries(es) && at <= |b| && b[at..] == EntriesBytes(es) + tail
    requires end == at + |EntriesBytes(es)| && Listing(d, Pos(end, Header(0, r.startBlock, r.number))) == Some(rest)
    ensures var all := Listing(d, Pos(at, Header(|es|, r.startBlock, r.number)));
            all.Some? && ShowAll(all.value, r, es, rest)
    decreases |es|
  {
    if es != [] {
      var e, more, to: nat := es[0], EntriesBytes(es[1..]) + tail, at + |EntryBytes(es[0])|;
      EntriesSplit(es, tail);
      Behind(b, at, EntryBytes(e), more);
      EntriesListed(b, d, to, end, r, es[1..], tail, rest);
      assert IsIn(d, b, Pos(at, Header(|es|, r.startBlock, r.number)));
      assert [e] + es[1..] == es;
      EntryListed(b, d, at, to, r, e, es[1..], more, Listing(d, Pos(to, Header(|es| - 1, r.startBlock, r.number))),
                  rest);
    }
  }

  lemma RunStep(b: seq<Byte>, at: nat, r: Run, tail: seq<Byte>)
    requires IsRun(r) && at <= |b| && b[at..] == HeaderBytes(r) + tail && tail != []
    ensures StepIn(b, Pos(at, Header(0, 0, 0))) ==
            EntryIn(b, at, Pos(at + HEADER_SIZE, Header(|r.entries|, r.startBlock, r.number)))
    ensures at + HEADER_SIZE <= |b| && b[at + HEADER_SIZE..] == tail
  {
    assert b[at..at + HEADER_SIZE] == b[at..][..HEADER_SIZE] == HeaderBytes(r);
    assert b[at + HEADER_SIZE..] == b[at..][HEADER_SIZE..] == tail;
    HeaderComesBack(r);
  }

  /** Where the reading of an entry began changes nothing else of it. */
  lemma FromElsewhere(b: seq<Byte>, from: nat, p: Pos, r: Run, e: Entry)
    requires 0 < p.header.count && from <= p.offset && EntryIn(b, p.offset, p).Yields?
    requires Shows(EntryIn(b, p.offset, p).entry, r, e)
    ensures EntryIn(b, from, p).Yields? && EntryIn(b, from, p).next == EntryIn(b, p.offset, p).next
    ensures Shows(EntryIn(b, from, p).entry, r, e)
  {
  }

  /** A run is listed like its entries. */
  lemma RunListed(b: seq<Byte>, d: Stream, at: nat, r: Run, tail: seq<Byte>, rest: seq<Dirent>)
    requires Steps(d) && IsIn(d, b, Pos(at, Header(0, 0, 0))) && IsRun(r)
    requires at <= |b| && b[at..] == HeaderBytes(r) + tail && tail != []
    requires var p := Pos(at + HEADER_SIZE, Header(|r.entries|, r.startBlock, r.number));
             && IsIn(d, b, p) && Listing(d, p).Some? && ShowAll(Listing(d, p).value, r, r.entries, rest)
    ensures var all := Listing(d, Pos(at, Header(0, 0, 0)));
            all.Some? && ShowAll(all.value, r, r.entries, rest)
  {
    var p := Pos(at + HEADER_SIZE, Header(|r.entries|, r.startBlock, r.number));
    RunStep(b, at, r, tail);
    var ds := Listing(d, p).value;
    assert Shows(ds[0], r, r.entries[0]) && ds[0] == d.step(p).entry;
    FromElsewhere(b, at, p, r, r.entries[0]);
    var all := Listing(d, Pos(at, Header(0, 0, 0))).value;
    assert all == [all[0]] + ds[1..];
    assert ShowAll(all, r, r.entries, rest) by {
      assert forall k | 0 < k < |all| :: all[k] == ds[k];
      assert all[|r.entries|..] == ds[|r.entries|..];
    }
  }

  /** The entries read are those written, each with its run. */
  ghost predicate ShowsWritten(ds: seq<Dirent>, ws: seq<(Run, Entry)>) {
    |ds| == |ws| && forall k | 0 <= k < |ws| :: Shows(ds[k], ws[k].0, ws[k].1)
  }

  lemma JoinWritten(ds: seq<Dirent>, rs: seq<Run>, rest: seq<Dirent>)
    requires rs != [] && ShowAll(ds, rs[0], rs[0].entries, rest) && ShowsWritten(rest, Written(rs[1..]))
    ensures ShowsWritten(ds, Written(rs))
  {
    var n, ws := |rs[0].entries|, Written(rs);
    forall k | 0 <= k < |ws|
      ensures Shows(ds[k], ws[k].0, ws[k].1)
    {
      if k >= n {
        assert ds[k] == ds[n..][k - n] && ws[k] == Written(rs[1..])[k - n];
      }
    }
  }

  lemma {:induction false} RunsListed(b: seq<Byte>, d: Stream, at: nat, rs: seq<Run>)
    requires Steps(d) && (forall p: Pos {:trigger IsIn(d, b, p)} :: IsIn(d, b, p))
    requires AreRuns(rs) && at <= |b| && b[at..] == DirectoryBytes(rs)
    ensures var all := Listing(d, Pos(at, Header(0, 0, 0)));
            all.Some? && ShowsWritten(all.value, Written(rs))
    decreases |rs|
  {
    assert IsIn(d, b, Pos(at, Header(0, 0, 0)));
    if rs != [] {
      var to: nat := at + HEADER_SIZE + |EntriesBytes(rs[0].entries)|;
      RunParts(b, at, rs[0], DirectoryBytes(rs[1..]));
      RunsListed(b, d, to, rs[1..]);
      RunThenRest(b, d, at, to, rs[0], DirectoryBytes(rs[1..]), Listing(d, Pos(to, Header(0, 0, 0))));
      JoinWritten(Listing(d, Pos(at, Header(0, 0, 0))).value, rs, Listing(d, Pos(to, Header(0, 0, 0))).value);
    }
  }

  lemma RunThenRest(b: seq<Byte>, d: Stream, at: nat, to: nat, r: Run, tail: seq<Byte>, rest: Option<seq<Dirent>>)
    requires Steps(d) && (forall p: Pos {:trigger IsIn(d, b, p)} :: IsIn(d, b, p))
    requires IsRun(r) && at <= |b| && b[at..] == HeaderBytes(r) + EntriesBytes(r.entries) + tail
    requires to == at + HEADER_SIZE + |EntriesBytes(r.entries)|
    requires rest.Some? && rest == Listing(d, Pos(to, Header(0, 0, 0)))
    ensures var all := Listing(d, Pos(at, Header(0, 0, 0)));
            all.Some? && ShowAll(all.value, r, r.entries, rest.value)
  {
    EntriesThere(r);
    RunParts(b, at, r, tail);
    var mid: nat := at + HEADER_SIZE;
    SameHeader(d, Pos(to, Header(0, r.startBlock, r.number)), 0);
    EntriesListed(b, d, mid, to, r, r.entries, tail, rest.value);
    assert IsIn(d, b, Pos(mid, Header(|r.entries|, r.startBlock, r.number)));
    assert IsIn(d, b, Pos(at, Header(0, 0, 0)));
    RunListed(b, d, at, r, EntriesBytes(r.entries) + tail, rest.value);
  }

  lemma EntriesThere(r: Run)
    requires IsRun(r)
    ensures EntriesBytes(r.entries) != []
  {
  }

  lemma RunParts(b: seq<Byte>, at: nat, r: Run, tail: seq<Byte>)
    requires IsRun(r) && at <= |b| && b[at..] == HeaderBytes(r) + EntriesBytes(r.entries) + tail
    ensures b[at..] == HeaderBytes(r) + (EntriesBytes(r.entries) + tail)
    ensures var mid: nat := at + HEADER_SIZE;
            var to: nat := mid + |EntriesBytes(r.entries)|;
            to <= |b| && b[mid..] == EntriesBytes(r.entries) + tail && b[to..] == tail
  {
    SumOfThree(HeaderBytes(r), EntriesBytes(r.entries), tail);
    Behind(b, at, HeaderBytes(r), EntriesBytes(r.entries) + tail);
    Behind(b, at + HEADER_SIZE, EntriesBytes(r.entries), tail);
  }

  /** Whatever runs of entries are written, the bytes list exactly them. */
  lemma WrittenIsListed(rs: seq<Run>, cursor: nat -> Cursor)
    requires AreRuns(rs)
    ensures var d := StreamOf(DirectoryBytes(rs), cursor);
            Steps(d) && Listing(d, START).Some? && ShowsWritten(Listing(d, START).value, Written(rs))
  {
    var b := DirectoryBytes(rs);
    var d := StreamOf(b, cursor);
    StreamSteps(b, cursor);
    assert forall p: Pos {:trigger IsIn(d, b, p)} :: IsIn(d, b, p);
    assert b[0..] == b;
    RunsListed(b, d, 0, rs);
  }

  /** And wherever an image holds those bytes, sqfs_dir_next yields them, one by one, and then nothing. */
  lemma WrittenIsRead(im: Image, rs: seq<Run>, cursor: nat -> Cursor)
    requires AreRuns(rs) && Holds(im, DirectoryBytes(rs), cursor)
    ensures var d := StreamOf(DirectoryBytes(rs), cursor);
            && Steps(d) && Reads(On(im), d) && Listing(d, START).Some?
            && ShowsWritten(Listing(d, START).value, Written(rs))
  {
    BytesList(im, DirectoryBytes(rs), cursor);
    WrittenIsListed(rs, cursor);
  }
}
