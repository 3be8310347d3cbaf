# zipfs: verified model of the index, the decoders and the staleness guard

zipfs mounts a zip archive read-only. Three of its parts are fast structures that have to agree
with something simple, and this project proves that they do:

1. **The index.** Central directory records arrive in any order. Their paths are filtered,
   normalised and interned one component at a time through a linear-probing table; clashes are
   settled by "first wins" and "directory wins"; the result is grouped by parent, sorted,
   relabelled breadth first and answered by binary search. The simple form is a map from
   component lists to a kind and a record (`Tree`). `Finishing.Build` is proved to produce an
   index that *is* that map, and `Tree.GrowMeetsExpectation` gives the map in closed form.
2. **Decoders and their pool.** A forward-only decoder over a refillable buffer, with a running
   checksum, is kept in a per-file pool under a mount-wide budget. The simple form is the
   plaintext. Every read returns a slice of it, in every history in which files are opened, read
   and released while other reads are under way (`Mounting.Mount.Run`).
3. **The staleness guard.** Bytes are read first and the file's stamps compared afterwards, while
   a writer may act at any moment. Every byte handed out is proved to be one the file had when it
   was mounted.

## Layout

| file | module | models |
|---|---|---|
| `Bytes.dfy` | `Bytes` | bytes, byte order of names, `Option`, `Result`, integer limits |
| `Paths.dfy` | `Paths` | filtering, normalising and splitting of paths |
| `Tree.dfy` | `Tree` | the specification: the tree of a record list, and its closed form |
| `Limits.dfy` | `Limits` | how large a tree may get, decided from the records alone |
| `Interner.dfy` | `Interning` | the hash table over keys kept in the name blob |
| `Builder.dfy` | `Building` | the builder, record by record, with its books |
| `Grouping.dfy` | `Grouping` | the counting sort by parent and the sort of siblings |
| `BreadthFirst.dfy` | `BreadthFirst` | the queue traversal that assigns inodes |
| `Index.dfy` | `Indexing` | the finished index, binary search, and what it means |
| `Finish.dfy` | `Finishing` | from the builder to the index, and from records to the index |
| `Readdir.dfy` | `Listing` | directory listings and their cursors |
| `Civil.dfy` | `Civil` | zip timestamps as Unix time |
| `Guard.dfy` | `Guarding` | the file, its writer, and the guarded reads |
| `GuardProtocol.dfy` | `GuardProtocol` | readers and writer as an interleaved step system |
| `Codec.dfy` | `Codecs` | the contract of a decompressor, the stored codec, checksums |
| `Source.dfy` | `Sources` | the buffered source over one range of the archive |
| `Decoder.dfy` | `Decoding` | the positioned decoder: pump, skip, fill, verify |
| `Pool.dfy` | `Pooling` | settings, budget, core store and the per-file pool |
| `Truncation.dfy` | `Truncation` | a stream that was cut off, put together from file to pool |
| `Mount.dfy` | `Mounting` | handles, overlapping reads and all pools on one budget |
| `BudgetProtocol.dfy` | `BudgetProtocol` | the budget as an interleaved step system |
| `Stored.dfy` | `StoredReads` | stored entries: watcher, direct reads, locating the data |
| `Serve.dfy` | `Serving` | a read request as it is answered |

## What is assumed

- The hash and the checksum are arbitrary functions; the checksum is a fold over bytes, as
  section 4.4.7 of PKWARE APPNOTE.TXT has it. Nothing depends on which functions they are.
- A decompressor is a deterministic machine with a plaintext, an ending (announced, run out or
  damaged) and the contract `Codecs.Decodes`. `Codecs.StoreMeetsContract` shows that the stored
  codec keeps it, and `Codecs.MarkedMeetsContract` that a machine which ends in all three ways can;
  the deflate and zstd libraries are taken to keep it.
- The writer keeps to the limits that `src/guard.rs:13-28` documents: it moves the stamp before it
  touches data, and the old stamp never comes back. When it acts, what the path names, and which
  system calls fail, is left open. `GuardedFile.failures` is a ghost count of system calls that
  failed, so that success can be promised: without a failed call, a change that was found or an
  archive that is too short, no read fails.
- Fewer than 2^32 - 1 records are added: `NO_META` is `u32::MAX` (`src/index.rs:21`), so a metadata
  index may not reach it. `place` stores `id + 1` in 32 bits (`src/index/intern.rs:88`); the model
  reports the one node that would overflow as too large, which changes no result, since `finish`
  refuses any index of that size.
- The build reads methods 0, 8, 20 and 93 (stored, deflated, and zstd under both numbers).
- Atomics are sequentially consistent.

## What came out different from what one might expect

- A coded stream that ends early gives a short `Ok`, not an error. This is what the code and the
  comment at `src/decode.rs:121` say; the errors note at `src/decode.rs:125` says otherwise.
  `Truncation.ShortRead` is an input: one byte of a declared two, read with checks on, gives that
  byte. The exact condition is in `Pooling.EntryPool.Read`: on an entry that is cut short inside
  the archive, with no failed call and no change, a read fails if and only if it starts beyond the end
  of what is there, and otherwise returns everything up to that end.
- With checks on, a read that reaches the declared size of a compressed entry returns bytes only if
  the entry is sound. This is stated for reads that start before that size, which are the only ones
  that `read` passes on (`src/fs.rs:390-395`).
- The third check of `add` (`src/index/build.rs:323-326`) can never fire: a node that nobody
  claimed is always a directory. `Building.Builder.Reclaim` proves this where the check stands.
- `Pooling.EntryPool.Checkout` never returns a decoder past the offset, so the "past the requested
  offset" error of `read_at` cannot be reached through the pool: no answer of
  `Pooling.EntryPool.Read` is `InvalidInput`.
- A verdict is never taken back. That it is never reversed either is proved for entries that lie
  inside the archive.

## Model

| member | source | states |
|---|---|---|
| `Finishing.Build` | src/index/build.rs:508-554 | For every record list the index represents the tree of the accepted records: walking lookups from inode 1 finds a path exactly when the tree has it, with that kind and record; no two paths share an inode and every inode has a path; child ranges tile 2..n. The rejection counts and all other books are exact. It succeeds if and only if the tree has fewer than 2^32 - 1 paths and its names, the newest aside, stay within 32 bits. |
| `Finishing.NeverFits` | src/index/build.rs:190-210 | A record that cannot be added means that no list with this beginning makes an index. |
| `Finishing.NamesStep` | src/index/build.rs:194-196 | Only the newest name may end beyond 32 bits of the blob. |
| `Finishing.ShortListsFit` | src/index/build.rs:508-554 | Records whose paths together stay below 32 bits always make an index. |
| `Limits.TooLarge` | src/index/build.rs:190-210 | Once a tree is full, no extension of the list fits. |
| `Limits.LacksForGood` | src/index/build.rs:190-210 | A tree that lacks the newest path of a list lacks that of every longer list. |
| `Limits.GrowSizes` | src/index/build.rs:190-210 | Number of paths and bytes of names are bounded by the bytes of the records' paths. |
| `Finishing.LookupsMeetExpectation` | src/index.rs:193-202 | Walking a built index answers for every path what the closed form says, and succeeds iff the path is empty or a prefix of an accepted record. |
| `Finishing.KindOfFirst` | src/index/build.rs:291-297 | On the built index: a name whose first record is no directory, with nothing below it, is a symbolic link iff mode & 0xF000 is 0xA000, and a file otherwise, with that record. |
| `Finishing.TypeBits` | src/index/build.rs:499-501 | Masking the type bits looks at the four bits above the lowest twelve. |
| `Tree.GrowMeetsExpectation` | src/index/build.rs:286-354 | Adding records one by one gives every path exactly its closed form: first exact record, unless displaced by a deeper path, then the first directory record after that. |
| `Tree.ExistsIffPrefix` | src/index/build.rs:213-234 | A path exists iff it is the root or a prefix of some record. |
| `Tree.DirectoryIff` | src/index/build.rs:286-354 | A path is a directory iff a record lies strictly below it or its first exact record is a directory. |
| `Tree.AddPointwise` | src/index/build.rs:259-355 | What one record does to any one path: nothing, a synthetic directory, a take-over or a claim. |
| `Tree.MakeDirsPointwise` | src/index/build.rs:213-250 | Resolving a parent makes every nonempty prefix that is not a directory a synthetic one and changes nothing else. |
| `Tree.MakeDirsIsIdle` | src/index/build.rs:213-216 | Walking to a path that is already a directory changes nothing, which is why the memo may skip the walk. |
| `Tree.ExpectedStep` | src/index/build.rs:259-355 | The closed form after one more record is the closed form before, updated. |
| `Paths.NormalizePath` | src/index/build.rs:137-146 | The result is the canonical spelling and has the same components. |
| `Paths.NormalizationIsCanonical` | src/index/build.rs:115-146 | Two paths have the same components iff they normalise to the same bytes. |
| `Paths.ComponentsOfJoin` | src/index/build.rs:115-118 | A component list is recovered from its canonical spelling. |
| `Paths.ComponentsAtSlash` | src/index/build.rs:115-118 | Components of two parts joined by a slash are the components of both. |
| `Paths.ComponentsArePinned` | src/index/build.rs:115-118 | A separator divides components, and what has none stands for itself unless it is empty or a dot. |
| `Paths.SizeOfComponents` | src/index/build.rs:115-118 | Components take up no more bytes than their path. |
| `Paths.SplitParentKeepsComponents` | src/index/build.rs:125-134 | For every path, the parent part and the leaf together have exactly its components. |
| `Paths.SplitParentOfNormalized` | src/index/build.rs:125-134 | On a normalised path the split gives all but the last component, and the last. |
| `Paths.RejectReason` | src/index/build.rs:79-109 | No reason is given iff the path is acceptable, and the reason given is the one that holds of the path. |
| `Interning.MaskIsRemainder` | src/index/intern.rs:41-43 | Masking with a power of two less one is reduction modulo that power. |
| `Interning.NextPowerOfTwo` | src/index/intern.rs:46-54 | The least power of two not below a number. |
| `Interning.Interner.constructor` | src/index/intern.rs:46-54 | An empty table of at least 32 slots and twice the hint. |
| `Interning.Interner.Find` | src/index/intern.rs:57-71 | The node with this parent and name is returned iff there is one; the probe loop ends. |
| `Interning.FreeSlotMeansAbsent` | src/index/intern.rs:57-71 | A free slot on the probe sequence proves that no node has the key. |
| `Interning.ProbeGoesOn` | src/index/intern.rs:57-89 | In a table that is not full no probe comes all the way round. |
| `Interning.Interner.Place` | src/index/intern.rs:82-89 | Exactly one free slot is written, with the node's id plus one, reachable from its home. |
| `Interning.Interner.Grow` | src/index/intern.rs:91-101 | Twice the slots, the same nodes, all of them still found. |
| `Interning.Interner.Insert` | src/index/intern.rs:74-80 | The table then files every node, with at most half of the slots in use, and has grown iff it had to. |
| `Interning.HoldsAfterInsert` | src/index/intern.rs:74-89 | One more reachable key leaves all earlier keys reachable. |
| `Interning.MovedAll` | src/index/intern.rs:91-101 | A table into which every slot was moved holds the same keys. |
| `Building.Builder.constructor` | src/index/build.rs:163-186 | The builder starts as the tree that is only a root, with its books balanced. |
| `Building.Builder.Intern` | src/index/build.rs:190-210 | Either the one node at that path and nothing changed, or one new synthetic node there; refused only for a new path in a full tree or an overlong name. |
| `Building.Builder.Append` | src/index/build.rs:194-209 | The new node is at a path no node had, and the table files it. |
| `Building.Builder.TakeOverAsDir` | src/index/build.rs:237-250 | The file's path becomes a synthetic directory, counted once as duplicate and once as synthetic. |
| `Building.Builder.Descend` | src/index/build.rs:219-231 | One component further down, at a directory, whatever was there before. |
| `Building.Builder.ResolveParent` | src/index/build.rs:213-234 | Through the memo or by walking, the result is the directory at exactly those components, it is the new memo, and the tree has every directory above it; refused only when the tree is full and the path is missing. |
| `Building.Builder.Attach` | src/index/build.rs:330-354 | The record takes its node: the tree has it at that path and the books count one more entry. |
| `Building.Builder.Reclaim` | src/index/build.rs:299-328 | A record whose name exists: the directory wins, then the first entry; the unclaimed count never underflows. |
| `Building.Builder.AddLeaf` | src/index/build.rs:286-354 | The leaf is claimed below its parent as the tree says. |
| `Building.Builder.Add` | src/index/build.rs:259-355 | The tree grows by exactly this record if it is accepted, and the books account for it either way; it fails only when the tree is full and the record's path is still missing from it. |
| `Building.AcceptedIff` | src/index/build.rs:264-284 | A record is indexed iff its path is acceptable, an unencrypted stored entry has equal sizes, and a non-empty entry has bytes. |
| `Building.NewPathIsNew` | src/index/build.rs:190-210 | A key the table does not have is a path no node has. |
| `Building.PrefixesAreDirs` | src/index/build.rs:213-250 | Everything above a node is a directory node. |
| `Building.GoodAfterAppend` | src/index/build.rs:194-209 | A new node keeps the lists a tree with one node per path, and adds one key. |
| `Building.GoodAfterUpdate` | src/index/build.rs:237-250 | Changing kind, flag and metadata of a node leaves every key as it was and the lists a tree. |
| `Building.BalancedAfterTakeOver` | src/index/build.rs:237-250 | A take-over keeps the synthetic count exact and symlink slots distinct. |
| `Building.BalancedAfterAttach` | src/index/build.rs:330-354 | So does a claim, which uses up one symlink slot at most. |
| `Grouping.CountChildren` | src/index/build.rs:433-442 | How many children each node has, one place to the right. |
| `Grouping.SumCounts` | src/index/build.rs:443-447 | Each entry becomes the place where its segment begins. |
| `Grouping.ScatterOne` | src/index/build.rs:451-458 | A cursor write puts the node into its own segment, right behind the ones before. |
| `Grouping.Scatter` | src/index/build.rs:448-458 | Every segment holds its node's children in order of arrival. |
| `Grouping.CursorStaysInSegment` | src/index/build.rs:451-458 | A cursor never reaches the next segment. |
| `Grouping.FillOne` | src/index/build.rs:451-458 | A cursor write changes no other segment. |
| `Grouping.SortSegment` | src/index/build.rs:460-467 | One segment is sorted by name and nothing else changes. |
| `Grouping.SortSegments` | src/index/build.rs:460-467 | All segments are sorted. |
| `Grouping.GroupChildren` | src/index/build.rs:432-469 | Segment i is the sorted children of i, for every i, in an array of all non-root nodes. |
| `Grouping.TotalOfAll` | src/index/build.rs:443-447 | The segments together hold every node but the root. |
| `Grouping.ChildrenAreChildren` | src/index/build.rs:432-469 | A segment holds exactly the nodes that name the node as parent, each once. |
| `Grouping.ChildrenIncrease` | src/index/build.rs:460-467 | In a tree, siblings come out strictly increasing by name. |
| `Bytes.LessIsFirstDifference` | src/index/build.rs:460-467 | The order of names: at the first difference the smaller byte, or the shorter name. |
| `BreadthFirst.Enqueue` | src/index/build.rs:490-494 | The children of one node are queued and numbered in order; none was queued before. |
| `BreadthFirst.BreadthFirstOrder` | src/index/build.rs:472-497 | The traversal ends, numbers every node, and succeeds iff every label fits in 32 bits. |
| `BreadthFirst.NothingIsMissed` | src/index/build.rs:472-497 | Every node is reached. |
| `BreadthFirst.LabelsAreAPermutation` | src/index/build.rs:472-497 | Labels and nodes correspond one to one. |
| `BreadthFirst.RangesTile` | src/index/build.rs:385-417 | Child ranges follow one another without a gap from 2 to the last inode. |
| `BreadthFirst.ChildInParentsRange` | src/index/build.rs:385-417 | A node lies in its parent's range, at its place by name, and after its parent. |
| `Indexing.Lookup` | src/index.rs:193-202 | Binary search answers the one child of that name, or none. |
| `Indexing.ChildIsUnique` | src/index.rs:193-202 | A directory has at most one child of a name. |
| `Finishing.CountDirs` | src/index/build.rs:391-396 | The number of directories among some nodes. |
| `Finishing.MakeNode` | src/index/build.rs:385-417 | The final node refers to its parent and children by their labels. |
| `Finishing.ListNodes` | src/index/build.rs:371-420 | The nodes in label order, behind a dead one, and the saturated sum of sizes. |
| `Finishing.Finish` | src/index/build.rs:358-428 | Succeeds iff every label fits; the index represents the builder's tree, ranges tile, subdirectory counts are right, symlink slots are distinct, the total size is the sum over all nodes. |
| `Finishing.AssembledRepresents` | src/index/build.rs:358-428 | An index made from a builder and a layout is the builder's tree. |
| `Finishing.AssembledTiles` | src/index/build.rs:385-417 | Parent before child, child in its parent's range, ranges back to back. |
| `Finishing.WalkReachesNode` | src/index.rs:193-202 | Looking up a node's components one by one reaches its inode. |
| `Finishing.WalkFindsOnlyNodes` | src/index.rs:193-202 | A walk that succeeds ends at the node with that path. |
| `Finishing.SubdirsOf` | src/index/build.rs:391-396 | The subdirectory count is the number of directories in the range. |
| `Finishing.SumOfPermutation` | src/index/build.rs:384-400 | Relabelling does not change the total. |
| `Finishing.Recount` | src/index/build.rs:545-552 | The number of synthetic inodes from 2 on. |
| `Finishing.RecountAgrees` | src/index/build.rs:545-552 | The recount is what the builder counted as it went. |
| `Listing.AddChildren` | src/fs.rs:488-505 | The loop fills the reply with the entries from the cursor on, up to its capacity. |
| `Listing.Readdir` | src/fs.rs:460-507 | Errors for what is no directory; otherwise the part of the listing that starts at the cursor and fits. |
| `Listing.ResumeAfter` | src/fs.rs:526-558 | The last cursor of a reply is where the next one begins. |
| `Listing.PagesAddUp` | src/fs.rs:477-506 | Any sequence of replies returns what one reply of their total capacity would. |
| `Listing.ListingIsComplete` | src/fs.rs:477-506 | Replies that take at least one entry each return everything exactly once, in order; an empty reply then, and only then, says that this was all. |
| `Listing.ListedInOrder` | src/fs.rs:488-505 | Children are listed strictly increasing by name. |
| `Listing.DotsAre` | src/fs.rs:479-487 | `.` is the directory itself and `..` the inode reached by the path without its last component; the root is its own parent. |
| `Listing.ListedAreChildren` | src/fs.rs:488-505 | Every other entry is the child a lookup of its name finds, with its kind. |
| `Listing.ChildrenAreListed` | src/fs.rs:488-505 | Every name that a lookup finds is listed. |
| `Civil.FormulaIsCount` | src/index/build.rs:570-579 | For every valid date, years before 0 included, the formula is the day-by-day count from 1970-01-01. |
| `Civil.EraIsFloor` | src/index/build.rs:572-573 | The truncating division with its correction rounds down. |
| `Civil.DatesFollow` | src/index/build.rs:570-579 | Later dates have larger day numbers. |
| `Civil.ToUnixIncreases` | src/index/build.rs:560-567 | Later valid times have larger Unix times. |
| `Civil.ToUnixCounts` | src/index/build.rs:560-567 | Unix time is 86400 times the counted days plus the seconds since midnight. |
| `Civil.ToUnixTicks` | src/index/build.rs:560-567 | The epoch is 0 and every second, over any day, month or year end, adds 1. |
| `Guarding.Disk.WriterRuns` | src/guard.rs:13-28 | The writer moves the stamp before it changes data, and never back. |
| `Guarding.NoChangeFound` | src/guard.rs:331-350 | No change is found iff size and time of every stamp looked at are the mounted ones and the path names the same device and file; removal and replacement are told apart; no answer comes only from a failed call. |
| `Guarding.GuardedFile.Verify` | src/guard.rs:291-318 | Ok only with an unchanged stamp; stale iff it was or a change shows; anything else is an error that is not permanent. |
| `Guarding.GuardedFile.Check` | src/guard.rs:278-284 | Stale iff latched, current only with an unchanged stamp, unknown only after a failed call. |
| `Guarding.GuardedFile.Transfer` | src/guard.rs:357-366 | The system's read, with the writer running between any two bytes: mounted bytes as long as the stamp has not moved. |
| `Guarding.GuardedFile.ReadAt` | src/guard.rs:357-361 | A successful read returns mounted bytes only, with the writer running in between, and none only at the end of the mounted file. |
| `Guarding.GuardedFile.ReadExactAt` | src/guard.rs:364-368 | A successful read returns all the bytes, all mounted; it fails only after a failed system call, a change that was found, or past the end of the mounted file; once stale, always stale. |
| `GuardProtocol.OnlyMountedBytes` | src/guard.rs:291-369 | In every interleaving of readers and writer, every byte ever handed out is the mounted byte at that place. |
| `GuardProtocol.RunsAreSafe` | src/source.rs:69-92 | Safety over every run: buffered bytes stay mounted bytes, bytes in doubt are dropped. |
| `GuardProtocol.StepIsSafe` | src/source.rs:69-92 | Every single step keeps it, a failed refill included. |
| `GuardProtocol.ReportsAreTrue` | src/guard.rs:291-318 | Bytes are accepted only if all arrived and one look found the stamp unmoved; a change is reported only if latched; any other failure only if something was missing or could not be looked at. |
| `GuardProtocol.StaleForGood` | src/guard.rs:321-329 | The latch is never cleared. |
| `GuardProtocol.OnlyStaleOnceLatched` | src/guard.rs:291-318 | Once a change is latched, a reader that is not in the middle of a look accepts nothing more in any interleaving, and every refill it ends reports the change, whatever other readers are doing. |
| `GuardProtocol.AtMostOneLateReport` | src/guard.rs:291-318 | For every reader without exception: of the refills that end after the latch, at most the first reports anything but the change. |
| `GuardProtocol.NothingAcceptedOnceStale` | src/guard.rs:291-318 | The same for all readers at once when no look is under way. |
| `GuardProtocol.MovedStampStaysMoved` | src/guard.rs:13-28 | A moved stamp is seen as moved for ever. |
| `GuardProtocol.OthersDoNotMatter` | src/source.rs:69-88 | As long as nothing changes, a reader fares in any interleaving as it would alone. |
| `GuardProtocol.RefillSucceeds` | src/source.rs:69-88 | A refill whose calls succeed is accepted with all its bytes, in any interleaving in which no change shows before it is over. |
| `Codecs.StoreMeetsContract` | src/codec.rs:114-127 | The stored codec keeps the contract on every input, however it is cut up. |
| `Codecs.StoreMovesAll` | src/codec.rs:117-126 | The stored codec moves all there is, or all there is room for, in one step. |
| `Codecs.MarkedMeetsContract` | src/codec.rs:44-56 | So does, on every input, a machine that announces an end at one mark and fails at another: all branches of the contract are inhabited. |
| `Codecs.FeedInBlocks` | src/decode.rs:286-288 | A checksum updated block by block is the checksum of everything. |
| `Sources.BufSource.constructor` | src/source.rs:29-39 | Nothing handed out yet. |
| `Sources.BufSource.Retarget` | src/source.rs:42-46 | Another range, from its start, whatever was buffered. |
| `Sources.BufSource.Rewind` | src/source.rs:49-53 | Back to the start of the range. |
| `Sources.BufSource.Remaining` | src/source.rs:57-59 | What has not been handed out. |
| `Sources.BufSource.FillBuf` | src/source.rs:69-88 | The next bytes of the range, none iff it is used up; a failed refill hands out nothing and loses nothing, and needs a failed call, a change or an archive too short; buffered bytes and the end of the range need no read. |
| `Sources.BufSource.Refill` | src/source.rs:70-86 | The next stretch, with no offset beyond 64 bits. |
| `Sources.BufSource.Consume` | src/source.rs:90-92 | Moves on by the amount, but never past what is buffered. |
| `Sources.BufSource.Drain` | src/source.rs:42-92 | Over any pattern of partial consumes, failed refills and retargets, the bytes taken of each range are that range from its start, in order, without a gap. |
| `Decoding.PositionedDecoder.constructor` | src/decode.rs:54-72 | At offset zero with the checksum of nothing. |
| `Decoding.PositionedDecoder.Reinit` | src/decode.rs:96-105 | At offset zero again, from any earlier state. |
| `Decoding.PositionedDecoder.Deliver` | src/decode.rs:285-293 | Output, position and checksum move together. |
| `Decoding.PositionedDecoder.Offer` | src/decode.rs:283-284 | One step of the machine on the next coded bytes. |
| `Decoding.PositionedDecoder.Turn` | src/decode.rs:279-284 | The same with a refill before it, which may fail without harm. |
| `Decoding.PositionedDecoder.PumpRound` | src/decode.rs:278-310 | Either progress on the plaintext, an end, an error, or coded bytes used up. |
| `Decoding.PositionedDecoder.PumpStep` | src/decode.rs:274-311 | The next plaintext bytes, none only at the end; it terminates because coded bytes run out; a failing step may leave anything in the room it was given and nothing elsewhere. |
| `Decoding.PositionedDecoder.OneByteMore` | src/decode.rs:197-226 | Whether the stream goes past this point. |
| `Decoding.PositionedDecoder.Verify` | src/decode.rs:183-237 | With checks on and the archive readable, the answer and the recorded verdict are good iff the entry is sound and bad iff it is not; a proof of badness is always recorded; a verdict is never taken back and, inside the archive, never reversed; an unreadable archive leaves no verdict. |
| `Decoding.PositionedDecoder.SkipTo` | src/decode.rs:155-162 | Reaches the offset or reports that the stream ended or failed before it. |
| `Decoding.PositionedDecoder.FillOut` | src/decode.rs:164-174 | Fills the buffer with the plaintext from here, up to the declared size; short only at the end of the stream. |
| `Decoding.PositionedDecoder.ReadAt` | src/decode.rs:128-180 | Returns exactly the plaintext at the offset; short only where the stream ends; on a sound entry, or one merely cut short, only a failed call or a change makes it fail; a read that gets to the declared size leaves the verdict the entry deserves. |
| `Pooling.Config.Clamp` | src/config.rs:90-101 | Sizes and counts become the nearest ones in their range, modes keep their permission bits, and settings in range are left alone. |
| `Pooling.DecoderBudget.constructor` | src/pool.rs:51-61 | Empty, with sizes that are never zero. |
| `Pooling.DecoderBudget.TryRetain` | src/pool.rs:73-79 | A place iff one is left. |
| `Pooling.DecoderBudget.TakeCore` | src/pool.rs:86-100 | Parts of the right method and configured size, recycled where there are any, no longer in the store. |
| `Pooling.DecoderBudget.RecycleCore` | src/pool.rs:103-116 | Each part is kept iff there is room. |
| `Pooling.FindUsable` | src/pool.rs:153-165 | The furthest idle decoder that can serve the offset, or that there is none; among equals the first at the offset itself, and otherwise the last. |
| `Pooling.FindFurthest` | src/pool.rs:166-177 | The decoder furthest along, among equals the last. |
| `Pooling.SwapRemoveKeepsOthers` | src/pool.rs:153-177 | Taking one out of the list loses none of the others. |
| `Pooling.EntryPool.constructor` | src/pool.rs:132-145 | An empty pool on an entry whose range fits 64 bits. |
| `Pooling.EntryPool.Pull` | src/pool.rs:153-177 | One decoder out of the list and one place back. |
| `Pooling.EntryPool.Checkout` | src/pool.rs:153-199 | An unfinished decoder at or before the offset: the furthest usable idle one, otherwise one at zero; it shares nothing with the others. |
| `Pooling.EntryPool.GiveBack` | src/pool.rs:206-215 | Idle again iff there is room here and in the budget; otherwise its parts go to the store. |
| `Pooling.EntryPool.Close` | src/pool.rs:218-226 | Every place is given back and the buffers go to the store, as far as there is room, in order. |
| `Pooling.EntryPool.Read` | src/fs.rs:422-427 | One request through the pool: the right plaintext, short exactly when the stream is; with checks on, a read up to the end is answered and recorded as the entry deserves; on a cut-short entry it fails iff it starts past the end; verdicts last; the decoder goes back to the pool. |
| `Pooling.EntryPool.Choose` | src/pool.rs:154-177 | The furthest usable idle decoder, or the furthest of all to rewind, or none iff the list is empty. |
| `Truncation.ReadTruncated` | src/decode.rs:164-174 | Any read of any cut-off marked stream, from a file to the reply: it fails iff it starts past the end of what is there, unless the archive cannot be read. |
| `Truncation.ShortRead` | src/decode.rs:121-125 | One byte of a declared two is returned as a success. |
| `Mounting.Mount.Run` | src/fs.rs:321-448 | Every history of opening, overlapping reads in three steps, and releasing, on any number of files and one budget: handles are valid from opening to release and EBADF otherwise, every read under way is answered with bytes of its own entry, the end of an entry only if it is sound, errors on a sound entry only if a call failed or the archive changed, what has to be refused at its moment is refused, verdicts and a known change last, and the counter is the number of idle decoders. |
| `Mounting.Mount.StaleFromThenOn` | src/fs.rs:136-138 | From the first moment a change is known, every later open of an entry and every later read that begins on an open handle is answered ESTALE. |
| `Mounting.Mount.BadFromThenOn` | src/fs.rs:384-389 | From the moment an entry is found bad, every later read of it is refused. |
| `Mounting.Mount.OpenEntry` | src/fs.rs:321-363 | A handle never used before; refused with ESTALE iff a change is known. |
| `Mounting.Mount.BeginRead` | src/fs.rs:376-401 | EBADF iff the handle is not open; ESTALE once a change is known; refused for an entry found bad; otherwise answered at once or started with a decoder. |
| `Mounting.Mount.WorkRead` | src/fs.rs:422-427 | A read under way gets its result; nothing else about the mount changes. |
| `Mounting.Mount.FinishRead` | src/fs.rs:429-432 | The decoder goes back and the reply is right. |
| `Mounting.Mount.ReleaseHandle` | src/fs.rs:436-448 | The handle is gone at once, the pool only when nothing reads it any more. |
| `Mounting.Mount.DropFile` | src/pool.rs:218-226 | Dropping one pool gives back its places and leaves every other file and read in order. |
| `Mounting.Mount.Joins` | src/handle.rs:166-170 | A newly opened file joins the others without touching the books. |
| `Mounting.Mount.NothingRetained` | src/pool.rs:218-226 | Once every file is released and every read is over, the counter is zero. |
| `BudgetProtocol.BudgetIsKept` | src/pool.rs:73-83 | In every interleaving the counter is the idle decoders plus the places in flight, within the limit; pools keep their caps; nothing is left once all pools are gone. |
| `BudgetProtocol.RunsKeepBudget` | src/pool.rs:154-184 | The invariant holds over every run. |
| `BudgetProtocol.StepKeeps` | src/pool.rs:206-226 | Every step keeps it. |
| `BudgetProtocol.ReleaseNeverUnderflows` | src/pool.rs:81-83 | Whoever is about to release a place finds the counter above zero. |
| `StoredReads.StoreVerify.Observe` | src/handle.rs:42-56 | The watcher's state, the answer and the recorded verdict after one block; a verdict is not taken back. |
| `StoredReads.VerdictIffComplete` | src/handle.rs:42-56 | A block brings a verdict iff it completes a gapless run of blocks from offset zero. |
| `StoredReads.AtMostOneVerdict` | src/handle.rs:130-139 | One handle records at most one verdict, whatever the order of blocks. |
| `StoredReads.VerdictIsRight` | src/handle.rs:42-56 | The verdict is true of the whole entry. |
| `StoredReads.ObservedIsRight` | src/handle.rs:42-56 | One block keeps the watcher a prefix of the entry, or gives a true verdict. |
| `StoredReads.ReadDirect` | src/fs.rs:224-242 | Refused iff the range leaves the entry or 64 bits; otherwise mounted bytes of that place. |
| `StoredReads.VerifyStored` | src/fs.rs:205-222 | Ok iff the entry is sound, and the verdict says so; nothing happens when checks are off. |
| `StoredReads.DataStart` | src/archive.rs:93-112 | A start is returned and remembered iff header and directory agree and the range fits. |
| `Serving.Diagnose` | src/fs.rs:126-132 | EIO becomes ESTALE exactly when the archive is found changed; any other errno is passed on. |
| `Serving.OpenFile.ReadStored` | src/fs.rs:404-420 | A stored entry's bytes, also when its range runs past the end of the archive; only the watcher refuses bytes that were read, and exactly when they complete an unsound entry. |
| `Serving.OpenFile.PastWatcher` | src/fs.rs:415-418 | The watcher's state, the verdict and the answer after one block. |
| `Serving.OpenFile.ReadInARow` | src/handle.rs:42-56 | A stored entry read from start to end on one handle, with any block sizes and repeats after failures, is handed out to its last byte only if it is sound. |
| `Serving.OpenFile.Fetch` | src/fs.rs:401-428 | The right bytes whatever the kind of entry. |
| `Serving.OpenFile.Read` | src/fs.rs:365-434 | A read request: refused once stale or found bad, otherwise the right bytes or an error; the end of an entry, where it is checked, only if it is sound, with the verdict it deserves; on a sound entry only a failed call or a change gives an error; verdicts last. |

## Left out

- `src/main.rs` and `src/cli.rs`: processes, signals, logging set-up and options.
- `src/attr.rs`: a field-by-field mapping; the one count it uses is `Finishing.SubdirsOf`.
- `src/codec/deflate.rs`, `src/codec/zstd.rs`: wrappers over libraries, behind the codec contract.
- `src/hash.rs`: any hash function does.
- Parsing of zip structures: records, local headers and stamps are inputs.
- `readlink` and the symlink target cache (that slots are distinct is proved), `statfs`, and `read_all` apart from `verify_stored`: each is a single step with nothing to keep across calls.
- Descriptor switching on CIFS and attribute caching on NFS: documented as best effort (`src/guard.rs:27-43`), so there is no guarantee to prove.
- Mutex poisoning, relaxed memory order, log messages and warning limits.
- Nanoseconds of timestamps, and the zone they are in.
- A directory reply's capacity is a number of entries, not of bytes.
- Grouping.SortSegment: the library's unstable sort is modelled by its result; with distinct names there is only one.
- Indexing.Lookup: the library's binary search is modelled by the textbook loop, not by its exact probes.
- Sources.BufSource.Valid: the buffer is an array that stays with its source; handing it on (`into_buf`) is modelled where parts are recycled.
- Mounting.Mount.Run: the files are compressed entries whose data was located; checkout, work and return are one step each, and what happens inside them is `BudgetProtocol` and `GuardProtocol`.
- Serving.Diagnose: an operating system error other than a changed archive reaches it as EIO, not with its own errno.
- Guarding.GuardedFile.ReadAt: how many bytes the system returns before the end of the file is left open.
