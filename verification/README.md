# Verified model of a SquashFS reader and of the Detours code rewriter

This project models two parts of the repository and proves what they promise.

**The SquashFS read engine** (`src/`). An image is a function from positions to decoded blocks (`Disk`, `Image`); it
gives every structure a simple flat meaning: a metadata stream, a file's content, a listing, a tree, a list of
attributes. The engine reaches the same answers with a reference-counted block cache, a cursor over compressed blocks,
an index of block lists, directory indexes, a traversal with an explicit stack and path buffer, and lazily computed
cursors. The classes model that machinery, fields and all; their methods are proved against the flat meaning.

**The Detours library** (`external/detours/`). It moves machine code, allocates trampolines near it, patches code in
transactions, and rewrites the import tables of an image. Instructions get a step semantics, addresses are 64 bits wide
with their wrap-around, and code and memory are functions from addresses to bytes.

| part | files |
|---|---|
| disk, metadata stream, two-level tables | `Prelude`, `LittleEndian`, `Disk`, `Image` |
| cache, reference counts, metadata reads | `Cache` (module `SlotCache`), `Blocks`, `Fs` |
| block lists, their index, file content | `Blocklist`, `BlockIndex`, `Layout`, `FileContent`, `Reader`, `FileReader`, `ReadLoop`, `ReadRange` |
| directories and paths | `Dir`, `DirBytes`, `DirWriter`, `DirListing`, `DirLookup`, `DirReader`, `PathLookup`, `DirTree` |
| traversal | `Traversal`, `TraversalProof`, `Traverse`, `TraverseImage`, `TraverseTree` |
| extended attributes | `XattrSpec`, `XattrWriter`, `Xattr`, `XattrRun` |
| hash table and inode numbers | `Hash`, `HashTable`, `InodeMap` |
| 64-bit addresses | `Addresses` |
| ARM64 relocation | `Arm64`, `Arm64Encode`, `Arm64Mov`, `Arm64Copy`, `Arm64Rewriter` |
| x64 relocation | `X64Copy`, `X64Decode`, `X64Instruction`, `X64Copier`, `X64Moved`, `MovedCode`, `MovedSize`, `TargetCopy` |
| the x64 instruction format, and the decoder by it | `X64Format`, `X64Padding` |
| trampolines and transactions | `DetourJump`, `Trampolines`, `Allocator`, `DetourPatch`, `Detours`, `DetourTransaction`, `DetourRoundTrip` |
| import tables | `ImportSpec`, `ImportTables`, `ImportWriter`, `ImportSection` |

What a well-formed image is, is stated once: every metadata block of a table but the last decodes to 8192 bytes
(`Image.IsTable`), every data block but a file's last to the block size (`FileContent`), a block's position determines
its header and an inode's number its file (`ReadRange`), positions are not zero (zero is the key of an empty cache
slot), directory names are sorted and index entries point at headers (`DirListing`, `DirLookup`, and in terms of the
bytes `DirTree`), no directory is below itself, names have no slash and entry types agree with inodes
(`TraverseTree`), and an attribute value kept out of line has the inline size 8 (`XattrSpec`, with the exact effect of
any other size).

What is read is tied to what was written. `DirWriter`, `XattrWriter` and `Disk` lay out directories, attributes and
blocks as little-endian bytes (`LittleEndian`), and reading yields exactly what was laid out. In the same way
`X64Format` gives the size and the displacement of every x64 instruction by the manuals, without the tables of the
decoder, and the decoder is proved to find them.

The manuals are the Intel 64 and IA-32 Architectures Software Developer's Manual, volume 2 (chapter 2, the entry of
NOP, and appendix A), and, for 3DNow!, FEMMS, EXTRQ, INSERTQ and the second encoding of TEST, the AMD64 Architecture
Programmer's Manual, volume 3 (appendix A).

Places where the code does not keep what it or its documentation says are results here, each with the exact condition:
the cache's promise that a lookup always succeeds (`MissWithoutFillPoisons`), the inode number whose key is that of an
empty slot (`OnlyLastAborts`), the index slot for the position behind the last block (`EndSlot`: it may be one that
was never written, or lie behind the last one, where reading it is a read outside the buffer; `JumpLands` shows that
no value found there leads the list astray), inode number zero (`NoneIsGiven`), the 32-bit lookup count (`RunIsTrue`,
`CountWraps`), the attribute skip (`SkipIsNext`, `ListsIff`), branches on x17 (`KeepsIffSafe`), BL (`BRelocated`),
displacements that do not fit (`CopyAgrees`, `AllDo`), LOOP, LOOPE, LOOPNE and JECXZ out of reach of their targets
(`JoinsIff`: the copies behind them are put over what was copied; `LoopLosesByte` gives the code of a function that
loses a byte of its first instruction, `LoopFirst` one whose second instruction is written in front of the
trampoline), the emptiness test of a trampoline region (`EmptyIff`), the code saved beside a long moved block
(`PatchAndRestore`, `MovedTooLong`), a pointer that is detached (`InAndOut`: it has its first value again exactly if
that was not a jump to be skipped), and, in the decoder, the instructions of which `X64Format` gives the difference:
an immediate that depends on REX.W where another prefix follows it, the second encoding of TEST, moves of control and
debug registers whose ModR/M byte looks like memory, UD0, UD1 and XBEGIN (`DecodesByFormat`), and LOOPNE, which is
taken for the end of a function (`EndsIff`).

## Model

| member | source | states |
|---|---|---|
| Disk.DecodedMd | src/fs.c:184-205 | a metadata block the reader can deliver lies inside the image, header included |
| Disk.HeadersComeBack | src/fs.c:134-144 | the header written for a block, metadata or data, gives back whether it is compressed and how many bytes are stored |
| Disk.WrittenMdIsRead | src/fs.c:184-205 | a metadata block is read where it was written, compressed or not, and the next one is right behind it |
| Disk.WrittenDataIsRead | src/fs.c:207-214 | a data block is read where it was written, with the header that was written for it |
| Image.ReadSplit | src/fs.c:299-325 | reading a + b bytes equals reading a and then b, for every image and cursor, errors included |
| Image.ReadFlat | src/fs.c:299-325 | a read at the cursor of flat offset o yields the n bytes of the concatenated blocks from o on and leaves the cursor of o + n |
| Image.FlatBlock | src/fs.c:299-325 | block i of a table occupies the flat bytes from 8192 i on |
| Image.BlockCursor | src/fs.c:308-321 | the cursor rule (stay in the block, or offset 0 of the next one at its end) is the cursor of the flat offset |
| Image.TableIsFlat | src/table.c:68-81 | the two-level lookup of entry i is entry i of one flat array, no entry straddling a block |
| SlotCache.Cache.Get | src/cache.c:104-130 | a hit returns the slot with the key and changes nothing; a miss evicts exactly the next slot in FIFO order and gives it the key; the assertion trips exactly when a slot has the key but was never filled |
| SlotCache.Cache.Fill | src/cache.c:137-141 | filling a fresh slot makes it valid with the entry and leaves all other slots |
| SlotCache.MissWithoutFillPoisons | src/cache.c:104-130 | a miss that is never filled makes the next lookup of its key assert, against the promise in src/cache.h:49-51 |
| SlotCache.CleanNotPoisoned | src/cache.c:104-130 | where every slot with a key other than zero has been filled, no lookup of a key other than zero asserts |
| Blocks.EvictCounted | src/fs.c:277-287 | evicting a slot drops exactly one reference; the block dies exactly if that was the last, and all counts stay exact |
| Blocks.DisposeCounted | src/fs.c:277-282 | a caller's dispose keeps every count equal to slots plus outstanding references, and frees exactly at zero |
| Blocks.FillCounted | src/fs.c:149-152 | a new block enters a slot with count one and keeps all counts exact |
| Blocks.FrontCounted | src/cache.c:85-102 | tearing down one slot keeps the counts of the slots that are left exact |
| Blocks.BlockCache.Look | src/cache.c:104-130 | lookup with the eviction callback: counts stay exact, references held by callers stay good |
| Blocks.BlockCache.Get | src/fs.c:216-275 | the block returned is what the image holds at the position, whatever was cached or evicted before, held by one more reference; it fails only for the image or a poisoned slot |
| Blocks.BlockCache.Fetch | src/fs.c:216-228 | finds or loads the block; every slot keeps caching what the image holds |
| Blocks.BlockCache.Allocate | src/fs.c:146-182 | the loaded block is new, has count one, and is in the fresh slot |
| Blocks.BlockCache.Reference | src/fs.c:239 | one more reference is outstanding, and the block is alive |
| Blocks.BlockCache.Release | src/fs.c:277-282 | exactly one reference less; the block is freed exactly when neither slot nor caller holds it, every other reference stays good |
| Blocks.BlockCache.Destroy | src/cache.c:85-102 | what stays alive is exactly what callers still hold: with no reference out, every block is freed |
| Fs.MdCopy | src/fs.c:302-322 | the bytes copied are the block's and the reference taken is given back |
| Fs.MdRead | src/fs.c:299-325 | the loop returns what the image's flat meaning says for any size, cursor and cache state, moves the cursor the same with or without a buffer, and leaves no reference behind |
| Fs.DataCopy | src/fs.c:248-275 | the bytes are those the image stores at the position, with no reference left |
| Fs.TableGet | src/table.c:68-81 | the entry read is that of the flat array |
| Fs.FileSystem.constructor | src/fs.c:289-292 | caches start empty, with no reference out and no failed load |
| Fs.FileSystem.Read | src/fs.c:299-325 | on a file system with three caches, a metadata read changes no outstanding reference of any |
| Fs.FileSystem.Destroy | src/fs.c:123-132 | with no reference out, every block ever loaded is freed |
| Blocklist.QuotRem | src/file.c:141 | repeated subtraction gives the C quotient and remainder |
| Blocklist.DivCeil | src/fs.c:327-332 | the result is the least number of groups that hold the total: they hold it, and one less does not |
| Blocklist.CountBlocks | src/file.c:69-77 | with a fragment, as many whole blocks as fit into the file; otherwise the least number of blocks that hold the file |
| Blocklist.File.StepAt | src/file.c:89-111 | from anywhere in the list, one step yields header, position, offset and remaining count of the next block |
| Blocklist.File.SameAsScan | src/file.c:89-111 | a list standing k blocks into a file yields for ever what a scan from the start yields after k steps |
| BlockIndex.CursorOf | src/file.c:286-288 | entry k lies at byte offset + 4k of the list, also when entries straddle metadata blocks |
| BlockIndex.SkippedIsFirst | src/file.c:308-309 | the entry jumped to is the first that starts in the metadata block, offset % 4 bytes into it |
| BlockIndex.SkippedAtMost | src/file.c:308-314 | the jump never passes the block looked for |
| BlockIndex.SlotInside | src/file.c:242-245 | a block of the file has its slot inside the index |
| BlockIndex.JumpAt | src/file.c:311-316 | the list after a jump stands exactly where a scan of `skipped` steps stands |
| BlockIndex.IndexRefinesScan | src/file.c:273-321 | for a block of the file, every later step after the jump equals that of the plain scan: header, block, position, size and remaining count, for every offset, aligned or not |
| BlockIndex.JumpLands | src/file.c:308-316 | for any block up to the count, whatever an unfilled slot yields, the jump lands at most at the block, and at the end has nothing remaining |
| BlockIndex.EndSlot | src/file.c:242-259 | exactly when the slot for the block count is unfilled, and exactly when it lies behind the last one |
| BlockIndex.NewBlock | src/file.c:253-256 | the test on the cursor offset recognises exactly the first entry of each new metadata block |
| BlockIndex.FillSlot | src/file.c:251-267 | a turn of the filling loop keeps all slots so far right |
| BlockIndex.FilledIsIndex | src/file.c:251 | when the loop stops, for lack of entries or of slots, every slot that is used names the first entry of its metadata block |
| Layout.TableFileReads | src/file.c:79-111 | a list anywhere in a real inode table reads entry after entry through the metadata stream |
| Layout.TableFilePlaced | src/file.c:254-258 | the entries of a list in an inode table lie as the index assumes, so its hypotheses hold for real tables at any offset |
| Reader.BlockList.Next | src/file.c:89-111 | the method moves the list as the pure step says, at the end and for failed reads too |
| Reader.StepOver | src/file.c:89-111 | a step over block k of a file leads to block k + 1 |
| FileReader.NoteBlock | src/file.c:256-260 | notes the slot exactly for the first entry of a new metadata block |
| FileReader.FillIndex | src/file.c:250-267 | the loop fills the index to its end or to the end of the list |
| FileReader.BuildIndex | src/file.c:228-271 | the result is the index of the file |
| FileReader.CachedIndex | src/file.c:294-306 | whichever inode was cached or evicted, the index handed out is that of the inode asked for |
| FileReader.IndexSlot | src/file.c:294-297 | the slot found has the key of the inode and, if valid, stays as it is; none is found exactly if the key is poisoned, for any 32-bit inode number |
| FileReader.OnlyLastAborts | src/file.c:294-297 | without failed reads the lookup asserts for no inode but number 0xffffffff, whose key is that of empty slots, and for that one exactly if an untouched slot comes before any index of it; in every state that successful reads lead to, exactly as long as not every slot has been filled |
| FileReader.Seek | src/file.c:273-321 | the list handed out stands at some block not behind that of `start`, by jump or from the beginning, or at the end for the fragment |
| FileReader.Indexable | src/file.c:213-217 | indexed exactly for a file longer than 2047 blocks, or, with a fragment, of at least 2048 whole blocks |
| FileContent.Content.BlockInBytes | src/file.c:155-173 | block k, hole or stored, is the stretch of the file from k block sizes on |
| FileContent.Content.UptoInBytes | src/file.c:155-173 | the first blocks put together are the beginning of the file |
| FileContent.Content.SliceInBlock | src/file.c:175-182 | what is copied from inside a block is the corresponding stretch of the file |
| FileContent.Content.SliceInTail | src/file.c:64-65 | what is copied from the fragment is the end of the file |
| FileContent.Content.CountLimits | src/file.c:69-77 | the listed blocks cover the file up to a tail shorter than a block |
| ReadLoop.Pass | src/file.c:158-159 | a block that is passed over ends before the start |
| ReadLoop.Meet | src/file.c:141-159 | the first block not passed over holds the next byte, at the read offset |
| ReadLoop.Copy | src/file.c:175-186 | copying takes the rest of a block and goes on, or exactly what is wanted |
| ReadLoop.NoTail | src/file.c:148-151 | with no block left and no fragment the file has been read to its end |
| ReadRange.CopyBlock | src/file.c:161-183 | the bytes are those of the block, zeros for a hole |
| ReadRange.FragBlock | src/file.c:35-67 | the fragment's block is found through the fragment table |
| ReadRange.FragEntryComesBack | src/file.c:35-45 | a fragment entry as it is written names its block and the header of that |
| ReadRange.CopyFragment | src/file.c:147-183 | the bytes are the file's slice of the shared fragment |
| ReadRange.BlockTurn | src/file.c:156-186 | a turn of the loop with a block left passes over it or copies from it, and the loop stands as before one block on; what is wanted and what is copied stay the same in sum |
| ReadRange.TailTurn | src/file.c:148-153 | the last turn completes the output: all that is wanted, or the file to its end |
| ReadRange.CopyRange | src/file.c:143-190 | from wherever the list stands, the loop yields exactly the wanted slice of the file |
| ReadRange.FileStore.ReadRange | src/file.c:113-194 | for every regular file, start and size: exactly file[start .. min(start + size, file size)], with the documented errors, whatever the caches and index hold, and no reference is left; without earlier failures it asserts only if the key of the inode is poisoned, as only that of number 0xffffffff can be; reads that succeed keep the index cache settled |
| DirBytes.BytesList | src/dir.c:126-161 | wherever reads yield the bytes of a directory, the entries are those that the bytes spell, header by header |
| DirWriter.WrittenIsListed | src/dir.c:126-161 | whatever runs of entries are written, the bytes list exactly them, in order: the inode of each is in the block of its run, at its offset, its number is as far from that of the run as written, modulo 2^32, and kind and name are those written |
| DirWriter.WrittenIsRead | src/dir.c:126-161 | wherever an image holds those bytes, repeated calls yield them, one by one, and then nothing |
| DirWriter.CountWraps | src/dir.c:133-141 | counts are biased by one modulo 2^32: with the largest one written, a run has no entry and an index entry no name |
| DirWriter.ItemComesBack | src/dir.c:164-192 | an index entry as it is written names its offset, its block and the size of its name |
| DirBytes.TableHolds | src/dir.c:57-68 | a directory's stretch of the directory table yields those bytes, whichever metadata blocks it spans |
| DirBytes.HeaderCursor | src/dir.c:186-190 | start block and (start offset + index) modulo 8192 are the cursor of the header at that index |
| DirListing.ListingAfter | src/dir.c:126-161 | behind k entries exactly the other entries are left |
| DirListing.ForwardHeaderLands | src/dir.c:164-206 | fast-forwarding puts the directory at a header not behind the target offset |
| DirListing.OpenResumes | src/dir.c:208-224 | opening at the offset behind any number of entries, with or without an index, leaves exactly the entries behind it |
| DirListing.OpenRejects | src/dir.c:221-223 | opening succeeds at the offsets of entries only |
| DirListing.PagesAreListing | src/dir.c:57-78 | pages cut at arbitrary points concatenate to the whole listing |
| DirLookup.StrNCmpOrder | src/dir.c:244-245 | strncmp up to the length of the name looked for, with the length tests beside it, decides the order of the names, prefixes included |
| DirLookup.SearchFinds | src/dir.c:270-276 | scanning until the order is at least zero finds the entry or shows that there is none |
| DirLookup.LookupExact | src/dir.c:251-279 | on a sorted directory, found exactly if the name is an entry, and then that entry: neither index nor early stop misses one |
| DirReader.Directory.Next | src/dir.c:126-161 | the method yields the next entry of the specification, its offsets included, which for written directories is the next one written (DirWriter.WrittenIsRead) |
| DirReader.Directory.ReadHeaders | src/dir.c:133-141 | reads headers until a run has entries or the directory ends |
| DirReader.Directory.FastForward | src/dir.c:164-192 | goes through the index as the specification does, for both callbacks |
| DirReader.Directory.SkipTo | src/dir.c:217-223 | skips to the offset, and fails unless it is met exactly |
| DirReader.Directory.Find | src/dir.c:269-278 | the last loop of a lookup |
| DirReader.Open | src/dir.c:57-78 | opening at an offset is the specification's, errors included, and leaves no reference |
| DirReader.Lookup | src/dir.c:251-279 | a lookup through caches and index is the specification's |
| PathLookup.ComponentsSplit | src/dir.c:296-305 | slashes separate, wherever and however many: the names on both sides of one are the names of the whole |
| PathLookup.WalkResolves | src/dir.c:282-319 | in a tree whose directories are well formed and closed under what they list, walking component by component is resolving the path in what the directories list |
| PathLookup.NodeLookup | src/dir.c:251-279 | a lookup in a directory of the tree finds what that lists, and leads into the tree again |
| PathLookup.NextName | src/dir.c:296-305 | splits off the first component |
| PathLookup.LookupPath | src/dir.c:282-319 | on any image, the walk; in a tree, whatever is cached, exactly what the path resolves to, and an assertion only after an earlier failed read |
| DirTree.TableDirectory | src/dir.c:164-206 | a directory in the directory table of an image, at any offset, is well formed, with the entries that its bytes spell, if the bytes of its index, where it has one, spell the offsets, blocks and first names of runs |
| DirTree.TreesExist | src/dir.c:282-319 | there is an image with such a tree, in which the path "a" resolves to the directory that the root lists |
| TraversalProof.JoinSnoc | src/traverse.c:251-260 | a name below a directory is the directory's path, a separator and the name |
| TraversalProof.RestTake | src/traverse.c:141-152 | taking an entry off the topmost listing splits its visit from what is left |
| TraversalProof.AscendPath | src/traverse.c:310-322 | leaving a directory restores the path one level up |
| TraversalProof.NextReports | src/traverse.c:134-199 | one call reports the next event of the recursive traversal and leaves the rest |
| TraversalProof.TraverseIsWalk | src/traverse.c:134-204 | iterated calls with any choice of pruned directories yield exactly the events of the recursive depth-first traversal without those subtrees, paths included |
| TraverseImage.NextMirrors | src/traverse.c:134-199 | a call that reads the directories of an image answers what the call on the tree that they show answers, and stays in step with it |
| TraverseImage.ImageIsWalk | src/traverse.c:134-204 | all calls on an image report the recursive traversal of what its directories hold, without what is below pruned ones |
| TraverseTree.DirShows | src/traverse.c:141-152 | a well-formed directory that is not below itself shows the entries that it lists, with all that is below them |
| TraverseTree.TreeIsWalked | src/traverse.c:134-204 | so the calls of a traversal of a tree of directories report all of the tree, depth first |
| TraverseTree.EntriesLead | src/traverse.c:251-260 | every path reported is spelled by names that lead, directory by directory, to an entry of the kind reported |
| TraverseTree.AllReported | src/traverse.c:134-199 | every entry that names lead to is reported, by the path that spells them, if nothing is pruned and no directory fails |
| TraverseTree.PathComponents | src/dir.c:296-305 | splitting a path that was joined of names gives the names |
| TraverseTree.KindResolves | src/dir.c:282-319 | names lead to an entry exactly if lookup resolves them, but for inodes that cannot be read |
| TraverseTree.ReportedIff | src/traverse.c:134-204 | if nothing is pruned and no directory fails, a path is reported, as a directory or not, exactly if looking it up finds such an entry |
| Traverse.Traverse.constructor | src/traverse.c:93-115 | the traversal of a root starts with its listing and an empty path |
| Traverse.Traverse.Reserve | src/traverse.c:222-234 | the buffer keeps its text and has the room, by doubling |
| Traverse.Traverse.PathAdd | src/traverse.c:220-240 | the text is appended, inside the capacity |
| Traverse.Traverse.PathDrop | src/traverse.c:242-249 | as much as asked for is cut off, or everything |
| Traverse.Traverse.Descend | src/traverse.c:275-308 | the state after descending is the specification's |
| Traverse.Traverse.Ascend | src/traverse.c:176-185 | the state after ascending is the specification's |
| Traverse.Traverse.Next | src/traverse.c:134-199 | the state machine over stack and path buffer is a call of the specification |
| Traverse.Traverse.Prune | src/traverse.c:201-204 | pruning is the specification's |
| XattrSpec.SkipIsNext | src/xattr.c:100-104 | skipping an unseen entry by its inline size leads to the next entry exactly if a value out of line has the inline size 8 |
| XattrSpec.ReadsDiffer | src/fs.c:299-325 | reads of different lengths end at different cursors |
| XattrWriter.WrittenIsListed | src/xattr.c:94-192 | whatever attributes are written, with their values inline or elsewhere in the table, exactly they are listed |
| XattrWriter.RefComesBack | src/xattr.c:85-86 | a reference leads to the block and the offset that it was made of |
| XattrWriter.OtherKinds | src/xattr.c:113-114 | kinds but the three are refused |
| Xattr.PrefixSpelled | src/xattr.c:42-46 | the prefixes are those that callers know |
| Xattr.Xattr.Name | src/xattr.c:125-141 | the name is that of the entry, and the cursor behind it is remembered |
| Xattr.Xattr.Follow | src/xattr.c:154-167 | a reference leads to the value kept elsewhere, and past it to the next entry |
| Xattr.Xattr.ValueSize | src/xattr.c:143-173 | the size is that of the value, inline or not, whatever was asked before |
| Xattr.Xattr.Value | src/xattr.c:175-192 | the value is that of the entry, whatever was asked before |
| Xattr.Xattr.Pass | src/xattr.c:100-104 | the cursor of the next entry becomes known |
| Xattr.Xattr.Read | src/xattr.c:94-119 | goes on to the next entry, whatever was or was not asked about the last |
| XattrRun.Open | src/xattr.c:72-92 | the iterator starts at the first attribute of the inode |
| XattrRun.IdComesBack | src/xattr.c:72-92 | the attributes of an inode begin at the block and the offset that its id entry was written with, and are as many |
| XattrRun.ListsIsList | src/xattr.c:94-192 | the eager parse of the entries is the list of attributes |
| XattrRun.ListsIff | src/xattr.c:94-192 | attributes that can be parsed are listed, whatever is skipped, exactly if each value kept out of line has, inline, the size of the reference |
| XattrRun.Ask | src/xattr.c:125-192 | any accessor after any others shows the attribute, and keeps what is known sound |
| XattrRun.Step | src/xattr.c:94-119 | from any entry to the one behind it |
| XattrRun.Visit | src/xattr.c:94-192 | any calls, in any order, repeated or omitted, on every entry observe the same (type, name, value) list as one eager parse |
| Hash.PowerTest | src/hash.c:72-73 | n & (n - 1) is zero exactly for powers of two |
| Hash.MaskIsModulus | src/hash.c:32 | masking with capacity - 1 is the remainder |
| Hash.AddHolds | src/hash.c:30-43 | a new key at the head of its chain is the map with that key, one node more |
| Hash.RemoveHolds | src/hash.c:117-131 | unlinking a node removes its key from the map and nothing else |
| Hash.SetHolds | src/hash.c:97-106 | a write through the pointer changes one value of the map |
| Hash.CopyOne | src/hash.c:56-63 | moving one node keeps the map of what has been moved so far |
| Hash.CopyEnds | src/hash.c:54-64 | when all chains are copied the map is the old one |
| Hash.PrependedFinds | src/hash.c:54-64 | doubling turns the entries of a chain around: a lookup then finds the last entry with the key |
| Hash.AddedAgain | src/hash.c:30-64 | a key that is added although it is there is found with its new value, and after doubling still is exactly if that equals the oldest one |
| HashTable.Table.Init | src/hash.c:70-82 | fails exactly for capacities that neither are powers of two nor zero; the map is empty |
| HashTable.Table.Get | src/hash.c:97-106 | finds the value of the map, or that the key is absent |
| HashTable.Table.Set | src/ll_inode.c:213-214 | the map with that one value changed |
| HashTable.Table.Double | src/hash.c:45-68 | capacity doubles, every lookup and the size are preserved |
| HashTable.Table.Add | src/hash.c:108-115 | the map with the new key; the size is the number of keys and never above a capacity that stays a power of two |
| HashTable.Table.Remove | src/hash.c:117-131 | the map without the key, unchanged if it was not there |
| InodeMap.RoundTrip64 | src/ll_inode.c:92-110 | an id comes back through the 64-bit pair exactly unless it is one of the two that images do not use |
| InodeMap.RootIs1 | src/ll_inode.c:92-110 | the root is inode 1 of FUSE, no other id of an image is, and none is 0 |
| InodeMap.NumbersAreBijective | src/ll_inode.c:160-180 | the 32-bit translations are mutually inverse on all 32-bit numbers |
| InodeMap.RootNumberIs1 | src/ll_inode.c:160-180 | the 32-bit translation gives 1 to the root and to no other number |
| InodeMap.NoneIsGiven | src/ll_inode.c:135-137 | the forbidden FUSE number 0 is given to exactly one inode, only if the last number is used |
| InodeMap.PackedId | src/ll_inode.c:149-158 | the packed id is the id exactly if that has at most 48 bits |
| InodeMap.InodeMap.Sqfs | src/ll_inode.c:189-202 | resolves through the table as the map of entries does, and inode 1 to the root |
| InodeMap.InodeMap.Register | src/ll_inode.c:208-228 | counts one lookup of the inode, or adds it with count one |
| InodeMap.InodeMap.Forget | src/ll_inode.c:230-243 | drops lookups, and the inode when none is left |
| InodeMap.EventCounts | src/ll_inode.c:208-243 | an event changes the count as it should, unless the wrapped count falls short: then an inode with lookups outstanding is lost |
| InodeMap.RunIsTrue | src/ll_inode.c:189-243 | at any time of a run the cache knows whether a lookup of an inode is outstanding, exactly if no forget falls short in the 32-bit count |
| InodeMap.FewNeverShort | src/ll_inode.c:208-243 | with fewer than 2^32 lookups outstanding at any time, none does |
| InodeMap.RunResolves | src/ll_inode.c:189-243 | after any run in which no forget falls short, a FUSE inode resolves to its id if a lookup of it is outstanding and to the 1 that stands for none otherwise; after any run at all, inode 1 resolves to the root |
| InodeMap.CountWraps | src/ll_inode.c:213-214 | with 2^32 lookups outstanding the count is zero, and one forget loses the inode |
| Arm64Encode.FieldSigned | external/detours/disasm.cpp:3647-3732 | a displacement that fits its field comes back from it |
| Arm64Encode.BccDecodes | external/detours/disasm.cpp:3647-3667 | an assembled B.cond decodes to its condition and displacement |
| Arm64Encode.CbzDecodes | external/detours/disasm.cpp:3710-3732 | an assembled CBZ or CBNZ decodes to its size, register, sense and displacement |
| Arm64Encode.TbzDecodes | external/detours/disasm.cpp:3818-3842 | an assembled TBZ or TBNZ decodes to its bit, register, sense and displacement |
| Arm64Encode.BDecodes | external/detours/disasm.cpp:3669-3689 | an assembled B decodes to its displacement |
| Arm64Encode.BrDecodes | external/detours/disasm.cpp:3691-3708 | an assembled BR decodes to its register |
| Arm64Encode.MovDecodes | external/detours/disasm.cpp:3787-3816 | an assembled MOVN, MOVZ or MOVK decodes to its piece and shift |
| Arm64Mov.MovExec | external/detours/disasm.cpp:3924-3973 | for every 64-bit immediate, running the emitted words leaves exactly that value in the register, nothing else changed |
| Arm64Mov.JoinPieces | external/detours/disasm.cpp:3924-3973 | four 16-bit pieces make up the immediate |
| Arm64Mov.FirstMixes | external/detours/disasm.cpp:3924-3973 | MOVN or MOVZ sets the other pieces to the default |
| Arm64Mov.MovesExec | external/detours/disasm.cpp:3924-3973 | from piece k down, the loop's words complete the register |
| Arm64Mov.FewWords | external/detours/disasm.cpp:3924-3973 | one word for each piece that differs from the more frequent of 0 and 0xffff, or a single one |
| Arm64Copy.ThroughRuns | external/detours/disasm.cpp:4029-4154 | running a block of words through is running the processor on code in memory for some number of steps |
| Arm64Copy.DistanceLeads | external/detours/disasm.cpp:4029-4046 | the wrapped displacement leads to the target, in whole words |
| Arm64Copy.BranchThrough | external/detours/disasm.cpp:4029-4154 | a copied branch in its near, middle or far form goes to the original target when its test holds, otherwise to its own end, changing x17 at most |
| Arm64Copy.BThrough | external/detours/disasm.cpp:4063-4086 | a copied B goes to the target, changing x17 at most |
| Arm64Copy.InvertHolds | external/detours/disasm.cpp:4048 | the flipped test holds exactly when the original does not, for conditions below 14 |
| Arm64Copy.SafeKeeps | external/detours/disasm.cpp:4029-4154 | a safe copy keeps the meaning in every state |
| Arm64Copy.UnsafeFails | external/detours/disasm.cpp:4029-4154 | an unsafe one loses it in some state |
| Arm64Copy.KeepsIffSafe | external/detours/disasm.cpp:4029-4154 | the meaning is kept in all states exactly when the copy is near, or the condition can be inverted and the far form does not test x17 |
| Arm64Rewriter.Rewriter.EmitMovImmediate | external/detours/disasm.cpp:3924-3973 | writes the specified words, one to four, and returns their size |
| Arm64Rewriter.Rewriter.CopyBranch | external/detours/disasm.cpp:4029-4154 | the three forms by reach of the displacement |
| Arm64Rewriter.Rewriter.CopyBcc | external/detours/disasm.cpp:4029-4061 | B.cond: words, target and returned size |
| Arm64Rewriter.Rewriter.CopyB | external/detours/disasm.cpp:4063-4086 | B: words, target and returned size, whatever the link bit |
| Arm64Rewriter.Rewriter.CopyCbz | external/detours/disasm.cpp:4088-4120 | CBZ and CBNZ: words, target and returned size |
| Arm64Rewriter.Rewriter.CopyTbz | external/detours/disasm.cpp:4122-4154 | TBZ and TBNZ: words, target and returned size |
| Arm64Rewriter.BranchRelocated | external/detours/disasm.cpp:4029-4154 | from instruction word to copied words: for all word-aligned source, destination and target, faithful in all states exactly if safe |
| Arm64Rewriter.BRelocated | external/detours/disasm.cpp:4063-4086 | a copied B is faithful in all states; a copied BL exactly where x30 holds the return address already |
| X64Copy.SignedLow | external/detours/disasm.cpp:537-571 | a displacement comes back from 1 to 4 bytes exactly if it fits |
| X64Copy.ModFollowsFormat | external/detours/disasm.cpp:368-452 | size and displacement field found by the tables are those of the instruction format: opcode, ModR/M, operand and 0-, 1-, 2- or 4-byte immediate |
| X64Copy.RelativeFollowsFormat | external/detours/disasm.cpp:417-450 | calls, jumps and loops end with their displacement |
| X64Copy.MovedDenotes | external/detours/disasm.cpp:508-586 | a displacement moved with its instruction denotes the same 64-bit address exactly if it fits its field |
| X64Copy.MovedDenotes32 | external/detours/disasm.cpp:508-586 | with a 32-bit address size it always denotes the same address |
| X64Copy.MovedDenotes64 | external/detours/disasm.cpp:508-586 | a field of eight bytes holds every distance |
| X64Copy.PrefixDenotes | external/detours/disasm.cpp:454-465 | prefixes in front change nothing about it |
| X64Copy.PrefixAdjusted | external/detours/disasm.cpp:454-465 | adjusting an instruction behind prefixes is adjusting it where it is and putting the prefixes in front |
| X64Copy.AdjustedDenotes | external/detours/disasm.cpp:508-586 | a copy with a relative field denotes the original address exactly if the new displacement fits, the other bytes unchanged |
| X64Copy.WidenedDenotes | external/detours/disasm.cpp:475-506 | a widened short jump keeps its condition, and its target exactly if the displacement fits |
| X64Decode.TableEntries | external/detours/disasm.cpp:887-1232 | every entry of the two opcode tables is of a known kind, and short jumps are 0xeb and 0x70 to 0x7f |
| X64Decode.DecodeIsPlan | external/detours/disasm.cpp:454-473 | whatever bytes are decoded, behind any prefixes, the size is inside the code, the relative field is inside the instruction and of a size that AdjustTarget knows |
| X64Decode.DecodeLocal | external/detours/disasm.cpp:349-366 | only the bytes of the instruction itself are looked at |
| X64Format.FirstShapes | external/detours/disasm.cpp:887-1233 | for every one-byte opcode the entry has the ModR/M byte, the immediate, and the relative target of the opcode map, under all prefixes |
| X64Format.FirstKinds | external/detours/disasm.cpp:887-1233 | prefixes, escapes, short jumps and undefined opcodes are those of the opcode map |
| X64Format.SecondShapes | external/detours/disasm.cpp:1235-1528 | the same for the two-byte opcodes |
| X64Format.SecondKinds | external/detours/disasm.cpp:1235-1528 | the undefined ones are those of the map, but for UD0, UD1 and two that are taken |
| X64Format.VexShapes | external/detours/disasm.cpp:760-845 | the two-byte entries serve the opcodes that there are behind VEX prefixes |
| X64Format.PrefixesBehind | external/detours/disasm.cpp:454-473 | decoding is noting all prefixes in front of the opcode, and decoding what is behind them |
| X64Format.DecodesByFormat | external/detours/disasm.cpp:359-452 | whatever bytes are decoded, size and adjusted displacement are those of the instruction format: prefixes, opcode, ModR/M operand, immediate and relative target; the size is off by `Off` bytes, which is not zero exactly for the encodings named above, the displacement is missed exactly by XBEGIN and invented by moves of control registers |
| X64Format.InstructionIff | external/detours/disasm.cpp:359-452 | bytes are taken for one instruction exactly if they are one by the manuals, unless the size is off, and then never |
| X64Format.WideExample | external/detours/disasm.cpp:391-393 | 48 66 05 and a 16-bit immediate: five bytes by the manuals, seven for the decoder |
| X64Format.OtherExamples | external/detours/disasm.cpp:669-707 | f6 c9 01 is taken for two bytes of three, 0f 20 05 for seven, of which four are adjusted |
| X64Format.MoreExamples | external/detours/disasm.cpp:887-1528 | the target of XBEGIN is not adjusted, and 0f b9 c0 is taken for no opcode |
| X64Format.UndefinedIsUnknown | external/detours/disasm.cpp:359-366 | of what the manuals do not define, exactly the listed opcodes are taken |
| X64Format.JumpsGrow | external/detours/disasm.cpp:475-508 | the jumps that are widened are those of 8 bits, but for LOOP, LOOPE, LOOPNE and JRCXZ, which cannot grow |
| X64Padding.EndsIff | external/detours/detours.cpp:451-478 | what is taken for the end of a function is JMP, near RET, INT3 or a jump through a RIP-relative pointer, with the one prefix each may have, or LOOPNE |
| X64Padding.RecommendedFills | external/detours/detours.cpp:480-538 | the sequences that the manual recommends for padding are found, with their sizes, whatever follows |
| X64Padding.FillerIsFill | external/detours/detours.cpp:480-538 | what is found is one instruction that does nothing, or INT3 |
| X64Padding.PaddingIsFilled | external/detours/detours.cpp:1976-1985 | all padding that is consumed consists of such instructions |
| X64Instruction.FirstIsInstruction | external/detours/disasm.cpp:349-366 | the first bytes of code, as many as are decoded, are an instruction, decoded the same |
| X64Instruction.CopyAgrees | external/detours/disasm.cpp:349-586 | of any instruction, prefixes included: the copy has the same prefixes and behind them the instruction, or the near form of a short jump, denoting the same address, exactly if its displacement fits |
| X64Instruction.AgreesReaches | external/detours/disasm.cpp:508-586 | no bytes of that form do what the instruction does unless its displacement fits |
| X64Instruction.CopyLength | external/detours/disasm.cpp:440-452 | size and reported extra bytes are the length of the copy, but three less for a LOOP or JECXZ that cannot reach, and one more for a byte that is no opcode |
| X64Copier.Copier.AdjustTarget | external/detours/disasm.cpp:508-586 | adjusts the field in place, returns the target, and when the displacement does not fit asks for as many bytes as its field lacks to four, none for a field of four |
| X64Copier.Copier.CopyBytes | external/detours/disasm.cpp:368-452 | copies the instruction and adjusts exactly its relative field, for every kind of table entry; the target is returned for branches only |
| X64Copier.Copier.CopyBytesJump | external/detours/disasm.cpp:475-506 | writes the near form, with its extra size and the target |
| X64Copier.Copier.CopyBytesPrefix | external/detours/disasm.cpp:454-473 | a prefix is copied and noted, and what is behind it is copied behind it |
| X64Copier.Copier.CopyVex | external/detours/disasm.cpp:787-847 | likewise a VEX prefix of two or three bytes |
| X64Copier.Copier.CopyInstruction | external/detours/disasm.cpp:349-366 | through both tables, prefixes and VEX: writes the specified copy over the buffer at the place given and nowhere else, and returns its size and the extra bytes |
| X64Moved.PartAt | external/detours/detours.cpp:1951-1966 | parts put together are found at their offsets |
| X64Moved.JoinsIff | external/detours/detours.cpp:1951-1966 | the next copy is put right behind that of an instruction exactly unless that is a LOOP or JECXZ that cannot reach, or no opcode |
| X64Moved.RowStays | external/detours/detours.cpp:1951-1966 | where copies join, each stays in the buffer as it was written |
| X64Moved.AllDo | external/detours/detours.cpp:1951-1974 | all moved instructions are in the moved code and denote what they denoted, exactly if every displacement fits its field |
| X64Moved.LoopDrops | external/detours/detours.cpp:1951-1966 | a MOV and a LOOP out of reach leave two of the three bytes of the MOV |
| X64Moved.LoopFirst | external/detours/detours.cpp:1951-1966 | a LOOP out of reach at the beginning: the next copy begins one byte in front of the trampoline |
| X64Moved.FirstJumpReaches | external/detours/detours.cpp:413-449 | the relative or RIP-relative jump that code begins with fits wherever the bounds allow a trampoline |
| MovedCode.AllRun | external/detours/detours.cpp:1951-1974 | what is moved are the instructions at the target, each behind those before it |
| MovedCode.AllRead | external/detours/detours.cpp:1951-1974 | put together, they are the bytes at the target |
| MovedCode.PaddingRead | external/detours/detours.cpp:1976-1985 | what is replaced behind them is padding, piece by piece |
| MovedCode.TargetFits | external/detours/detours.cpp:1951-2034 | whatever the code is, what a detour replaces is never too much to be saved |
| MovedSize.ContainedIff | external/detours/detours.cpp:1951-2020 | unless a LOOP or JECXZ is out of reach, the moved code has the same length wherever it is put, and is all in rbCode exactly if that is at most 30 |
| MovedSize.LoopLosesByte | external/detours/detours.cpp:1951-1974 | code that begins with the bytes 48 89 c8 e2 10, moved out of reach, becomes the two bytes 48 89 |
| TargetCopy.CopyFirst | external/detours/detours.cpp:1955-1961 | one copied instruction: size, extra bytes and buffer |
| TargetCopy.CopyTarget | external/detours/detours.cpp:1951-1985 | the two loops of an attach over the bytes of a target: how much is replaced, and the moved code as specified |
| DetourJump.DisplacementComesBack | external/detours/detours.cpp:342-357 | the 32-bit displacement written comes back exactly if it fits |
| DetourJump.ImmediateJumps | external/detours/detours.cpp:342-348 | a jmp within reach, decoded, goes where it was told to |
| DetourJump.IndirectJumps | external/detours/detours.cpp:350-357 | a jmp through a pointer within reach, decoded, goes through that pointer |
| DetourJump.JumpsToIs | external/detours/detours.cpp:413-449 | the target or the vector that bounds the trampoline is that of the jump at the code, decoded |
| Trampolines.WithinIff | external/detours/detours.cpp:413-449 | a trampoline is within the bounds exactly if it is less than 2 GB - 512 KB away from the code and from its jump target, but for the first and last 512 KB of memory where both are near that end |
| DetourJump.InReach | external/detours/detours.cpp:413-449 | for all code addresses, any place in a trampoline inside the bounds is within signed 32-bit reach of the code, and of the target or vector of the relative jump it begins with, both ways |
| Trampolines.SlotsAreApart | external/detours/detours.cpp:1156-1255 | different slots never overlap |
| Trampolines.RegionOfSlot | external/detours/detours.cpp:1257-1265 | masking a slot's address finds its region |
| Trampolines.LiveAreApart | external/detours/detours.cpp:1156-1265 | trampolines handed out are disjoint |
| Trampolines.TakeSound | external/detours/detours.cpp:1167-1185 | taking the first free slot keeps every slot either free or handed out, never both or neither |
| Trampolines.GiveSound | external/detours/detours.cpp:1257-1265 | giving one back likewise |
| Trampolines.ThreadOne | external/detours/detours.cpp:1242-1249 | threading the slots of a new region makes each of them free exactly once |
| Trampolines.EmptyIff | external/detours/detours.cpp:1267-1289 | a region looks empty exactly if every trampoline handed out in it goes on nowhere or, by masking, inside the region itself |
| Trampolines.EmptyIsUnused | external/detours/detours.cpp:1267-1289 | so where trampolines go on outside, it looks empty exactly if it is |
| Trampolines.FreedTwice | external/detours/detours.cpp:1257-1265 | a slot given back twice is linked to itself: no free list of its region ends any more |
| Trampolines.DropSound | external/detours/detours.cpp:1291-1308 | dropping a region from the list does not touch the others |
| Trampolines.SiftedBelong | external/detours/detours.cpp:1291-1308 | when the regions that look empty are gone, every trampoline handed out keeps its region exactly if none was in such a region |
| Trampolines.SiftedUnused | external/detours/detours.cpp:1291-1308 | where trampolines go on outside their region, exactly the regions without one are gone, and no trampoline is lost |
| Allocator.Allocator.Take | external/detours/detours.cpp:1167-1185 | a slot of the default region is handed out exactly if one is free and within the bounds |
| Allocator.Allocator.FindRegion | external/detours/detours.cpp:1187-1193 | finds a region exactly if one will do: the default region, or else the first of the list |
| Allocator.Allocator.AddRegion | external/detours/detours.cpp:1233-1251 | a new region adds its slots to the free ones, the third one first |
| Allocator.Allocator.Alloc | external/detours/detours.cpp:1156-1255 | a slot is handed out exactly if a listed region has its first free slot within the bounds of the code or the new region has; which one it is, and that it is new; the new region is listed exactly if no other will do; everything else stays |
| Allocator.Allocator.Free | external/detours/detours.cpp:1257-1265 | the slot is free again and no other is touched |
| Allocator.Allocator.IsRegionEmpty | external/detours/detours.cpp:1267-1289 | the scan decides the emptiness condition |
| Allocator.Allocator.FreeUnused | external/detours/detours.cpp:1291-1308 | gives back exactly the regions that look empty; every trampoline keeps its region exactly if none is in such a region; for trampolines that go on outside, these are exactly the regions without a trampoline |
| DetourPatch.InsertImaged | external/detours/detours.cpp:1538-1544 | putting a jump over a target keeps every byte either original or covered by an attached detour |
| DetourPatch.RemoveImaged | external/detours/detours.cpp:1491-1515 | taking it out likewise |
| DetourPatch.NothingAttached | external/detours/detours.cpp:1491-1515 | with nothing attached every byte is the original |
| DetourPatch.AttachedJumps | external/detours/detours.cpp:1538-1544 | attached code begins with a jump to its trampoline |
| Detours.SavedWhole | external/detours/detours.cpp:2025-2082 | the jump behind the moved code leaves the saved code whole exactly if it ends before it (or the bytes happen to agree) |
| Detours.JumpsBack | external/detours/detours.cpp:2079-2082 | that jump depends only on how long the moved code is, not on where the trampoline is |
| Detours.PatchAndRestore | external/detours/detours.cpp:1491-1544 | putting the jump over the target and the saved code back restores all code exactly under that test |
| Detours.MovedFits | external/detours/detours.cpp:1951-1974 | if no copy has more than 12 bytes, and no jump that cannot grow is out of reach, copies and jump fit into rbCode, wherever the trampoline is |
| Detours.MovedTooLong | external/detours/detours.cpp:1951-2082 | code at any address that begins with two conditional short jumps and lock add qword gs:[esp+disp32], imm32: 19 bytes are replaced, the copies have 27, and the jump behind them damages the saved code |
| Detours.NewMoved | external/detours/detours.cpp:1951-1985 | the moved code noted is that of the instructions of the target, and what else is replaced is padding |
| Detours.NewDescribed | external/detours/detours.cpp:2023-2082 | a trampoline as filled in says what its patch says: saved code, way back, and jump into it within reach |
| Detours.ReachRemain | external/detours/detours.cpp:2079-2082 | the bytes of a trampoline are the moved code and a jump, decoded, through its pointer to what follows |
| Detours.AfterIs | external/detours/detours.cpp:1490-1580 | operations on different trampolines do not interfere, in whatever order |
| Detours.StillFits | external/detours/detours.cpp:1490-1580 | each operation still applies after the ones before it |
| Detours.AllApplied | external/detours/detours.cpp:1490-1580 | the commit loop does all operations |
| Detours.RepointOne | external/detours/detours.cpp:1491-1542 | an operation changes one pointer: to the trampoline if it puts a detour in place, and to the target if it takes one out |
| Detours.CommitLeaves | external/detours/detours.cpp:1690-1713 | after a commit exactly the detours in place keep a trampoline |
| Detours.AbortLeaves | external/detours/detours.cpp:1399-1441 | after an abort exactly those that were in place before |
| Detours.ReachDetour | external/detours/detours.cpp:342-357 | from target to trampoline to the detour given at the attach |
| DetourTransaction.Transaction.Begin | external/detours/detours.cpp:1375-1397 | opens a transaction without operations or culprit, or refuses and leaves the pending one as it is |
| DetourTransaction.Transaction.Attach | external/detours/detours.cpp:1786-2138 | notes one insertion with a fresh trampoline, made of the instructions at the target, and the detour, or nothing at all when it fails or detours a function to itself; it succeeds exactly if a trampoline is to be had, at least five bytes can be replaced, and the target can be made writable, and each other outcome is tied to which of these fails first; the error that will stop the commit is exactly the one returned, or none for ignored short targets |
| DetourTransaction.Transaction.Detach | external/detours/detours.cpp:2140-2277 | notes one removal of the pointer's detour, exactly if its detour function is the one given and the target can be made writable; and the error that will stop the commit is the one returned, or none for ignored ones |
| DetourTransaction.Transaction.Abort | external/detours/detours.cpp:1399-1441 | no byte of code and no pointer changes; pending trampolines are free again |
| DetourTransaction.Transaction.Commit | external/detours/detours.cpp:1468-1735 | all operations are done if no call failed, otherwise none; only bytes of their targets change; the last operation on a pointer leaves it at the trampoline, for a detour put in place, or at the target, for one taken out, and other pointers stay; if a detour was taken out, exactly the regions with trampolines in use are kept, unless all are to be |
| DetourTransaction.Transaction.Apply | external/detours/detours.cpp:1491-1580 | one operation: bytes, pointer, and the set of detours in place |
| DetourTransaction.Transaction.ApplyAll | external/detours/detours.cpp:1490-1580 | that loop, for all operations |
| DetourTransaction.Transaction.Perform | external/detours/detours.cpp:1490-1713 | all loops of a commit |
| DetourTransaction.Transaction.Clean | external/detours/detours.cpp:1690-1713 | frees the trampolines of removed detours and the regions left unused |
| DetourTransaction.CodeIsRestored | external/detours/detours.cpp:1468-1735 | in every reachable state without a detour in place, each byte of code is the original: attach, commit, detach, commit restores memory |
| DetourTransaction.OtherCodeIsOriginal | external/detours/detours.cpp:1468-1735 | bytes that no detour in place covers are always the original |
| DetourTransaction.DetourIsReached | external/detours/detours.cpp:1468-1735 | in every reachable state, the code of a detour in place jumps to its trampoline, which jumps through its pointer to the detour given at the attach |
| DetourTransaction.OriginalIsReached | external/detours/detours.cpp:2023-2082 | in every reachable state, every trampoline in use goes on, behind the moved code, to the code that follows what was moved |
| DetourTransaction.MovedIsOriginal | external/detours/detours.cpp:1951-1985 | in every reachable state, the instructions that a trampoline was made of are whole instructions, at their places in the original code, and behind them only padding is replaced |
| DetourTransaction.MovedByManual | external/detours/detours.cpp:1951-1985 | in every reachable state, each of them is one instruction by the manuals, where the decoder keeps to them, and the padding behind them does nothing |
| DetourTransaction.MovedCodeAgrees | external/detours/detours.cpp:1951-2082 | in every reachable state, the bytes of a trampoline do what each of these instructions did, denoting the same addresses, exactly if all their displacements fit; then the copies follow one another up to the jump behind them |
| DetourTransaction.SavedIsOriginal | external/detours/detours.cpp:2025 | in every reachable state, what a trampoline has saved is the original code |
| DetourTransaction.TrampolinesAreApart | external/detours/detours.cpp:1156-1265 | trampolines in use never overlap |
| DetourRoundTrip.SameImage | external/detours/detours.cpp:1468-1735 | two states with the same detours in place have the same code |
| DetourRoundTrip.PutIn | external/detours/detours.cpp:1375-2138 | begin, attach, commit: exactly when the attach can succeed, the pointer leads to a new trampoline, whose patch leads from the target to the detour; otherwise no byte and no pointer differs |
| DetourRoundTrip.TakeOut | external/detours/detours.cpp:1375-2277 | begin, detach, commit: exactly for the detour given at the attach, the pointer leads to the target again |
| DetourRoundTrip.InAndOut | external/detours/detours.cpp:1375-2277 | attach, commit, detach, commit: every byte of code is what it was, the detours in place are those that were, and the pointer leads to where its first value led behind skipped jumps |
| ImportWriter.CheckImportsNeeded | external/detours/image.cpp:1374-1424 | the sizes are those of the list although totals, not strings, are rounded; an edit is reported exactly if there is one |
| ImportWriter.CheckFile | external/detours/image.cpp:1382-1413 | what one file adds to the totals |
| ImportTables.NameTable.Allocate | external/detours/image.cpp:718-742 | appends the padded string and gives its address, or changes nothing when it does not fit |
| ImportTables.NameTable.AllocateHinted | external/detours/image.cpp:744-769 | appends hint and padded string, or changes nothing |
| ImportTables.ThunkTable.Allocate | external/detours/image.cpp:677-689 | appends the thunk and gives its address, or changes nothing when full |
| ImportWriter.WriteName | external/detours/image.cpp:1882-1898 | a name and a thunk that stands for it |
| ImportWriter.WriteFile | external/detours/image.cpp:1857-1902 | name, thunks and descriptor of a file are found in the tables; exactly the room counted for it is used |
| ImportSpec.DescribesStays | external/detours/image.cpp:1854-1905 | what is written for a file stays while more is written |
| ImportSpec.FileReads | external/detours/image.cpp:1857-1902 | a loader reading a descriptor finds the name and the imports of its file, in order and no more |
| ImportSection.WriteTables | external/detours/image.cpp:1854-1905 | every allocation succeeds, and the name and lookup tables are filled exactly to their ends |
| ImportSection.WriteAll | external/detours/image.cpp:1857-1902 | the loop over all files fills the tables without a failure |
| ImportSection.RequestIsTotal | external/detours/image.cpp:1808-1816 | what comes before the PE header was rounded up when it was read, so the buffer asked for is exactly what the pieces take |
| ImportSection.Output.Layout | external/detours/image.cpp:1819-1848 | pieces disjoint and inside the buffer, or a clean failure exactly when they do not fit, although two tables are not looked at |
| ImportSection.Output.WriteImports | external/detours/image.cpp:1808-1905 | for every list of imports and image: the section is laid out and filled, no allocation fails, and, with addresses below the ordinal flag, a loader reads the list back |
| ImportSection.ImportsReadBack | external/detours/image.cpp:1854-1905 | a loader reads back every file with its imports in order; only a single ordinary file without imports is left without a lookup table |

## Left out

- Multithreading, locks and allocation failure: every malloc succeeds and calls do not interleave.
- Decompression, `sqfs_pread` and byte order: parameters of the model (`Disk`); the decoded integers are little-endian.
- Integer widths in `src/`: positions and sizes are unbounded, except where a narrow field matters (index slots, inode numbers, lookup counts, hash masks).
- Reads outside a buffer: the C code has no check; the model stops there with an error of its own, which no main result reaches on a well-formed image. The one exception, a slot behind the allocated index, is given an arbitrary value (`EndSlot`, `JumpLands`).
- Blocks of memory are addressed by handles that are never reused; freeing is the removal of the handle.
- `sqfs_xattr_find` and `sqfs_xattr_lookup`: the filter at src/xattr.c:228 skips an attribute only when both its type and its size differ, so exact matching is not promised.
- Xattr.Xattr.Value: the state after an accessor has failed is not described.
- Names longer than the 256-byte buffer, and NUL characters in names: outside the directory format.
- Inode decoding: a function parameter in path lookup and traversal; `sqfs_inode_get` itself is not modelled. sqfs_mode, which tells the entry types of directories, is not part of this model.
- Traverse.Traverse.Prune: pruning after an error is not covered; the level stack is a sequence.
- HashTable.Table.Add: requires a key that is not there yet, as its only user ensures (`AddedAgain` is what becomes of one that is); chains are sequences, so aliasing of nodes is not captured.
- InodeMap.RunResolves: the ids looked up have at most 48 bits (`PackedId`).
- ARM64 ADR, ADRP and literal loads (external/detours/disasm.cpp:3975-4027 and 4156-4192): the page form adds in 32 bits and the literal range is wider than its field.
- Arm64Rewriter.BRelocated: what BL promises its callers is not kept by the copy; the condition is exact.
- X64Copier.Copier.CopyInstruction: the targets that calls and jumps through memory report (external/detours/disasm.cpp:709-758) are not modelled; they do not change the copy.
- X64Format.DecodesByFormat: EVEX-encoded instructions (opcode 62) are, as in the decoder, no instructions; the undefined members of opcode groups, of the three-byte maps and of the maps behind VEX, and prefixes that an instruction does not allow, are not told apart; the effect of an instruction other than where its displacement leads is not described.
- DetourRoundTrip.InAndOut: says nothing of a pointer to a trampoline that would itself be followed further (`back` is false then).
- DirWriter.WrittenIsListed: runs have fewer than 2^32 entries, as the count of a run is read modulo 2^32 (`CountWraps`); an image holds at most 256.
- X64Moved.AllDo: a jump into the moved code itself denotes, as in the code, the address it denoted before the code was moved.
- The x86, ARM and IA64 variants of `detours.cpp`, thread contexts and `rAlign`, and the search of the address space for a free region, whose result is a parameter.
- Page protections are flags that say whether a change succeeds; DetourCodeFromPointer is a parameter of an attach.
- DetourTransaction.Transaction.Attach: targets must be apart from the targets and trampoline regions in use; instructions have at most 15 bytes, their copies are written into rbCode (`ContainedIff`, `LoopFirst`), and leave the saved code whole, by the exact test of `PatchAndRestore`, beyond which `MovedTooLong` shows what is lost.
- DetourTransaction.Transaction.Detach: of a detour that is in place and not already marked for removal, as its trampoline would then be freed twice (`FreedTwice`); the pointer is trusted to be a trampoline, as in the code.
- ImportSection.Output.WriteImports: addresses are unbounded where the image format has 32 bits; the section's other contents, the section headers, and the edit callbacks are not modelled.
- The launcher, its overlay and FUSE glue (`src/main.c`, `src/sqfs_fs.c`, `src/hl.c`, `src/ll.c`): calls into systems that are not part of this model.
