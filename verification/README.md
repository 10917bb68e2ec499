# mjos in Dafny

A model of the parts of the mjos kernel whose correctness is hard to see by reading, with proofs of
what they do for all inputs, all states and all runs. `dafny verify dfyconfig.toml` checks everything.

| part | files | source |
|---|---|---|
| frame lists and frame allocator | `Frames`, `FrameAllocator` | kernel/memory/page.c |
| page tables: walk, update, search, user spaces | `PageWalk`, `PageTables`, `PageSearch`, `UserSpace`, `LateEntry` | kernel/memory/page.c |
| slab caches on page memory | `SlabModel`, `Slab` | kernel/memory/slab.c |
| path normalisation and lookup | `PathStack`, `PathSegments`, `PathJoined`, `PathNormalize`, `PathResolve` | kernel/libc/stdlib/cwalk.c, kernel/fs/vfs.cpp |
| sector cache | `CircularList`, `LruModel`, `SataDev` | kernel/libc++/include/list.hpp, lru.hpp, kernel/dev/sata_dev.cpp |
| ext2 block map, file reads, directory blocks | `Ext2Coords`, `Ext2File`, `Dentry` | kernel/fs/ext2 |
| ticket lock, message slot, construction guard | `Tickets`, `TicketLock`, `Ipc`, `IpcLimits`, `IpcProgress`, `Guard` | kernel/spin.c, kernel/process/ipc.c, kernel/libcxxrt/guard.cc |
| run queue and semaphore | `ListLinks`, `Scheduler` | kernel/include/list.h, kernel/process/scheduler.c, kernel/spin.c |
| strtol | `Strtol` | kernel/libc/stdlib/strtol.c |
| shared definitions | `Bytes`, `DistinctSeq`, `Options` | |

Code that works in place is a class or a method over arrays, lists and fields, proved against a
function of the old state; the properties are then proved about those functions. Concurrent code is a
state machine with one step for each access to shared memory, and the properties are about every run
of any number of threads.

## Where the code does something else than it says

The model follows the code. For each of these places there is a condition for when the code does what is
meant, exact unless said otherwise, and most have a lemma with an input for which it does not.

- kernel/memory/page.c:50-74: the two pop operations leave the outward link of the new end, so a full
  list survives either exactly when it had one frame (`Frames.PopTailStrict`, `Frames.PopHeadStrict`,
  `Frames.PopTailExample`, `Frames.PopHeadExample`). The frame allocator still works, because nothing
  reads that link on the lists that are popped.
- kernel/memory/page.c:217: a new page table is not cleared. No page changes exactly when the frame, read
  as a table of that level, leads to no page (`PageTables.DirtyTable`, `PageTables.DirtyTableExample`); a
  blank frame is one such. `PageTables.Kernel.SetEntry` has blank free frames in its invariant.
- kernel/memory/page.c:245-289: `find_virtual_addr` compares with KERNEL_VMA an address that is never
  sign-extended, so the comparison always succeeds and the search covers all 2^36 pages; 0 means both
  page 0 and no page.
- kernel/memory/page.c:566-651: `create_user_page` copies the two level-3 entries of the top 2 GB
  without looking whether they are present. A page that the kernel maps later, in any run of mappings,
  shows in the new space exactly if the entry above it was present then (`UserSpace.KernelMapping`,
  `UserSpace.LaterSeenIff`). `LateEntry.LateEntryExample` is a kernel tree without the second entry, and a
  mapping that the new space does not see.
- kernel/memory/slab.c:96: the slab leaves the partial list but `partial_cnt` stays, although
  kernel/include/memory/slab.h:13 calls it the length of the list. The count runs ahead by one each
  time (`SlabModel.CountDrifts`), and then a slab that is alone on the list can be given back while the
  list still holds it, because its links look like those of a slab on no list. The cache is in order
  after a release exactly if that does not happen (`Slab.Cache.ObjRelease`); `SlabModel.StrandingRun`
  is a run that gets there. With the decrement it never happens (`SlabModel.CountedRunNeverStrands`), and
  no run hands out an object twice without a release (`SlabModel.CountedNoDoubleObject`).
- kernel/libc/stdlib/cwalk.c:1260: `<=` hides a one-character first segment from the backward scan. A
  single path is normalised with an extra ".." in front exactly if it is relative and a later ".."
  cancels such a first segment (`PathResolve.SingleIsStack`, `PathResolve.NormalizeExample`). Any list of
  paths is normalised as meant if no path of it has such a segment first or right behind its root
  (`PathResolve.NoShortIsStack`).
- kernel/fs/vfs.cpp:42-63: `get_path` normalises the path but uses only the first character of the
  result; it walks the path as given (`PathResolve.GetPath`). Its array is one character shorter than the
  size it passes on. The result always fits, but its terminator lands outside exactly if the path is in
  normal form already (`PathResolve.NormalizedFits`, `PathResolve.TerminatorOutside`).
- kernel/dev/sata_dev.cpp:65: the arguments of `memcpy` are reversed against the comment, so a write
  copies from the cache to the caller. As coded it stores the bytes exactly if they are there already
  (`LruModel.CodedWriteIsFlat`, `LruModel.CodedWriteExample`). A sector that it does not cover as a whole
  never changes, and the caller's buffer gets what the disk holds (`SataDev.Device.WriteAsCoded`). A sector
  that it covers as a whole keeps what it held if it is cached when its round comes, and otherwise gets what
  the recycled buffer held (`LruModel.SectorHolds`).
  `SataDev.Device.Write`, `LruModel.WriteIsFlat` and `LruModel.RunIsFlat` are for the direction of the
  comment.
- kernel/fs/ext2/ext2_inode.cpp:196: the third index lacks a reduction modulo 256, so `getInstance` is
  right exactly below block 12 + 256 + 65536 + 65536 (`Ext2Coords.GetInstanceExact`).
- kernel/fs/ext2/ext2_inode.cpp:306-320: `--` leaves 255 beyond the level, and a following `++` is right
  exactly if it stays on the level or finds a zero there (`Ext2Coords.NextAfterStale`,
  `Ext2Coords.StaleExample`).
- kernel/fs/ext2/ext2_file.cpp:58-74: if the position is behind the end of the file, or the length is
  negative, the number of bytes that are left is negative and then taken as unsigned: the read goes on to
  the end of a block, and more is delivered than asked for. It delivers what was meant exactly if the length
  is not negative and the position not behind the end (`Ext2File.ReadLenAsMeant`, `Ext2File.ReadBehindEnd`).
- kernel/fs/ext2/ext2_fs.cpp:53-58 with kernel/fs/ext2/ext2_file.cpp:66-79: a data block number of 0, which
  means that none is allocated, is taken as the superblock at 1024. A block with its index blocks is read as
  it is exactly if it has a data block or those 1024 bytes are zero (`Ext2File.HoleIff`,
  `Ext2File.HoleExample`), and a read delivers the file exactly if each of its bytes is backed in this way
  (`Ext2File.File.Read`).
- kernel/fs/ext2/ext2_dentry.cpp:54-80: the loop over the entries of a block stops when the whole directory
  is read or at a record length of zero, not at the end of the block. A directory of filled blocks is read as
  it is, whatever lies behind the buffer in memory, exactly if its first block holds all of it
  (`Dentry.ReadsBlocksIff`); otherwise the entry after those of the first block is taken from behind the
  buffer (`Dentry.RunsPastBlock`, `Dentry.TwoBlocksExample`).
- kernel/fs/ext2/ext2_dentry.cpp:104-134: the last entry gets what is left of the block, fitting or not;
  the block is read back exactly if it fits (`Dentry.ReadsBackIff`).
- kernel/process/ipc.c:22-26: after an empty message the reader gives both locks, and then a sender and
  a reader get into the slot together. The slot is exclusive in every run exactly if no message may be
  empty (`IpcLimits.ExclusiveIffNoEmpty`).
- kernel/process/ipc.c:29: the size is read again after the slot has been given away. The result is the
  length of the body in every run exactly if all messages have one length
  (`IpcLimits.ReturnsLengthIffOneLength`).
- kernel/spin.c:32-48 with kernel/process/scheduler.c:79-104: `thread_resume` does not look at the wait
  type. An up keeps the semaphores in order exactly if the thread it wakes waits for a semaphore
  (`Scheduler.UpKeepsIff`). `Scheduler.CollisionExample` is a state in which it does not; whether the kernel
  reaches one is not known, because the other waiters wait for 16-bit process numbers and the memory of a
  process begins at 0x400000. The decrement and the wait of a down are two steps. Ups between them leave the
  semaphore in order exactly if there are no more of them than older waiters, that is, at most -value; one
  more is lost (`Scheduler.LostWakeUp`). The thread that blocked last is woken first
  (`Scheduler.UpUndoesDown`).
- kernel/libc/stdlib/strtol.c:40-45: 0x is taken as a prefix even without a digit behind it. The result
  is that of section 7.22.1.4 of C11 exactly if there is no such 0x (`Strtol.StandardIff`).

## Model

| member | source | states |
|---|---|---|
| Frames.PglistIsEmpty | kernel/memory/page.c:21-23 | true exactly for the empty list |
| Frames.PglistPushHead | kernel/memory/page.c:25-35 | the list is the frame followed by the old list; only links of these frames change |
| Frames.PglistPushTail | kernel/memory/page.c:37-47 | the list is the old list followed by the frame; only links of these frames change |
| Frames.PglistPopHead | kernel/memory/page.c:49-61 | removes and returns the first frame; the new head still links back to it |
| Frames.PglistPopTail | kernel/memory/page.c:63-75 | removes and returns the last frame; the new tail still links forward to it |
| Frames.PglistRemove | kernel/memory/page.c:77-92 | takes out exactly the given frame, wherever it is in the list, and clears its links |
| Frames.ListUnique | kernel/memory/page.c:21-92 | the links of a full list determine its contents |
| Frames.PopTailStrict | kernel/memory/page.c:63-75 | a full list is still one after the pop if and only if it had one frame |
| Frames.PopTailExample | kernel/memory/page.c:63-75 | two frames whose list is no longer well linked after the pop |
| Frames.PopHeadStrict | kernel/memory/page.c:49-61 | the same for the other pop |
| Frames.PopHeadExample | kernel/memory/page.c:49-61 | two frames whose list is no longer well linked after that pop |
| FrameAllocator.FrameTable.AddAvailable | kernel/memory/page.c:448-468 | a usable frame joins the free or the mappable list, and the counter follows |
| FrameAllocator.FrameTable.FrameAlloc | kernel/memory/page.c:127-152 | hands out the tail of the list for the wanted state, which the frame then has; there is a frame if and only if that list is not empty, and no frame at all only if both are; lists and counters stay in order |
| FrameAllocator.FrameTable.FrameRelease | kernel/memory/page.c:163-182 | the frame goes back to the list of its kind; the counters still match if and only if the frame was handed out |
| FrameAllocator.AllocAnswers | kernel/memory/page.c:127-152 | for each wanted state: a frame if and only if the list of its region has one, the last of that list; which failure is which otherwise; nothing else changes |
| FrameAllocator.ReleaseAnswers | kernel/memory/page.c:163-182 | a frame that is handed out becomes available and the first of the list of its region; a release of any other frame moves nothing |
| FrameAllocator.AllocOk | kernel/memory/page.c:127-152 | an allocation keeps the three lists disjoint and every frame on the list of its state |
| FrameAllocator.ReleaseOk | kernel/memory/page.c:163-182 | so does a release, of any frame |
| FrameAllocator.StepHandedOut | kernel/memory/page.c:127-182 | a call hands out only what was not handed out and takes back only what it is given |
| FrameAllocator.StepConserves | kernel/memory/page.c:127-182 | one call keeps the sets of frames below and above 2 GB |
| FrameAllocator.RunConserves | kernel/memory/page.c:127-182 | so does any run: no frame is lost or changes region |
| FrameAllocator.StaysOut | kernel/memory/page.c:127-182 | a frame that is out is not handed out before it is released |
| FrameAllocator.NoDoubleHandOut | kernel/memory/page.c:127-182 | over any run, a frame handed out twice was released in between |
| FrameAllocator.LongestFreeFirst | kernel/memory/page.c:127-182 | after any run the frame handed out is the one of its region that was given back longest ago |
| PageWalk.OffsetIsDigit | kernel/include/memory/page.h:67 | each index of PMLOFFSET is the digit of the page number that selects the table |
| PageWalk.WalkDigits | kernel/memory/page.c:104-119 | the walk in bits of the address: nine for each level from bit 39 down, every entry present, and the frame of each entry the next table |
| PageWalk.TableEntryBits | kernel/memory/page.c:214-217 | the entry of a new table: its frame, and P, RW, US, PWT and PCD as the only bits |
| PageWalk.OrCacheBits | kernel/memory/page.c:226-228 | the leaf gets PWT and PCD and keeps every other bit and the frame |
| PageWalk.DirectVirtual | kernel/memory/page.c:191-229 | VIRTUAL of a frame lies on the direct-map page of that frame |
| PageWalk.EntryWrite | kernel/memory/page.c:104-119 | in a tree of tables one written entry changes the walk of its own node only |
| PageTables.TableWrite | kernel/memory/page.c:204-217 | giving an absent table a blank frame keeps the tree and changes no walk |
| PageTables.LeafWrite | kernel/memory/page.c:226-228 | writing a leaf sets that page and no other |
| PageTables.EnoughFrames | kernel/memory/page.c:191-229 | 1030 free frames suffice for any call, with all the tables that map new tables |
| PageTables.DirtyTable | kernel/memory/page.c:214-218 | a new table, of any level, leaves every page as it was if and only if its frame, read as a table of that level, leads to no page |
| PageTables.DirtyTableExample | kernel/memory/page.c:214-218 | a frame with one present word maps a page that was not mapped |
| PageTables.Kernel.SetEntry | kernel/memory/page.c:191-229 | terminates, and is a map update: the page gets the value, each new table its direct-map entry, every other page keeps its walk |
| PageSearch.PageTranslate | kernel/memory/page.c:104-119 | the frame and offset of the four-level walk, or none if some level is not present |
| PageSearch.FindVirtualAddr | kernel/memory/page.c:245-289 | terminates with the least unmapped page from the given one on, across all carries, or 0 if there is none |
| UserSpace.KernelPageAlloc | kernel/memory/page.c:483-498 | a frame, mapped at its direct-map page in the kernel's tree, and no table of it; every frame taken from the free list is mapped at its direct-map page and no other page moves; 1031 free frames suffice |
| UserSpace.WriteTables | kernel/memory/page.c:600-636 | the five new tables hold what the code puts there, with the entries copied from the kernel's tables; no other frame changes |
| UserSpace.BuiltEntry | kernel/memory/page.c:600-636 | every entry reachable from the new root, at every level |
| UserSpace.BuiltJoint | kernel/memory/page.c:600-636 | the new tables form a tree that has the copied level-3 tables in common with the kernel's tree and no others |
| UserSpace.BuiltSees | kernel/memory/page.c:600-636 | from the new root the top 2 GB and the PCI window are the kernel's pages, and nothing else is mapped |
| UserSpace.MapOwn | kernel/memory/page.c:642-649 | mapping the new tables through the new root keeps that; the kernel sees the page too, and its other pages stay |
| UserSpace.CreateUserPage | kernel/memory/page.c:566-651 | the space that is made sees exactly the kernel's top 2 GB and PCI window; of the kernel's own pages exactly the direct-map pages of the frames taken change, which then show those frames; 5155 free frames suffice |
| UserSpace.OtherRoot | kernel/memory/page.c:191-229 | growth of one tree, seen from the other: common pages are the same from both, its own stay as they were |
| UserSpace.MapLater | kernel/memory/page.c:191-229 | any later mapping through either root maps the page and the new tables there, and keeps the two roots in agreement on the top 2 GB if both level-3 entries are shared; it succeeds if there are frames for all the tables that may be missing |
| UserSpace.KernelMapping | kernel/memory/page.c:634-636 | with any set of shared tables, a page of the top 2 GB that the space does not have and the kernel maps is the same from both if and only if its level-3 entry is shared |
| UserSpace.KernelRunSeen | kernel/memory/page.c:191-229 | after any run of kernel mappings a page under a shared table is the same from both roots, and every other page of the space is what it was |
| UserSpace.LaterSeenIff | kernel/memory/page.c:634-636 | after any run of kernel mappings, a page of the top 2 GB that the kernel has is seen by the space if and only if the level-3 entry above it was present when the space was made |
| LateEntry.LateEntryExample | kernel/memory/page.c:634-636 | a kernel tree without the second of these entries, a space made from it, and a kernel mapping that the space does not see |
| SlabModel.LiveDisjoint | kernel/memory/slab.c:15-33 | two objects in use share no byte |
| SlabModel.GrowOk | kernel/memory/slab.c:15-33 | a new slab adds free objects only |
| SlabModel.TakeOk | kernel/memory/slab.c:52-80 | an allocation returns an object that was not in use, and changes nothing else |
| SlabModel.ReleaseOk | kernel/memory/slab.c:82-111 | a release ends the use of its object and of no other; the cache is in order afterwards if and only if no slab was stranded |
| SlabModel.TakeUndoesRelease | kernel/memory/slab.c:60-111 | an allocation right after a release that gives no page back returns the same object if its slab comes first, and undoes the release |
| SlabModel.FirstSlabStays | kernel/memory/slab.c:98-101 | such a release keeps the list; a slab that has a free object again comes last |
| SlabModel.GivesBackIff | kernel/memory/slab.c:87-97 | a release gives the page back if and only if no other object of it is in use and the count is at least five |
| SlabModel.FreshOrder | kernel/memory/slab.c:26-32 | the objects of a new slab are handed out in the order of their addresses |
| SlabModel.CountDrifts | kernel/memory/slab.c:87-102 | partial_cnt gets ahead of the list by one exactly when an empty slab leaves the list |
| SlabModel.CountedNeverStrands | kernel/include/memory/slab.h:13 | with the decrement a release keeps partial_cnt the length of the list, and does not strand a slab |
| SlabModel.RunDrifts | kernel/memory/slab.c:60-111 | after any run partial_cnt is ahead of the list by the number of empty slabs that were taken off it |
| SlabModel.CountedRunNeverStrands | kernel/include/memory/slab.h:13 | with the decrement no release of any run strands a slab |
| SlabModel.StrandingRun | kernel/memory/slab.c:82-111 | twenty calls after which the partial list holds a slab that has been given back |
| SlabModel.NoDoubleObject | kernel/memory/slab.c:60-111 | over any run that strands nothing before its last call, an object handed out twice was released in between |
| SlabModel.CountedNoDoubleObject | kernel/include/memory/slab.h:13 | with the decrement, over any run, an object handed out twice was released in between |
| Slab.Cache.constructor | kernel/memory/slab.c:36-46 | an empty cache |
| Slab.Cache.FormatSlab | kernel/memory/slab.c:28-32 | the loop chains all objects of the page, in order, and writes nowhere else |
| Slab.Cache.AddSlab | kernel/memory/slab.c:15-33 | the slab that the frame allocator delivers joins the end of the partial list with all its objects free |
| Slab.Cache.SlabAlloc | kernel/memory/slab.c:52-58 | the head of the chain in page memory is taken off it |
| Slab.Cache.ObjAlloc | kernel/memory/slab.c:60-80 | the first free object of the first slab of the list, after getting a new slab if the list is empty; a full slab leaves the list |
| Slab.Cache.ReturnObj | kernel/memory/slab.c:103-110 | the object becomes the head of the chain in page memory, and only its first two bytes are written |
| Slab.Cache.ObjRelease | kernel/memory/slab.c:82-111 | the release step; the cache is valid afterwards if and only if no slab was stranded, and otherwise the head of the list is a frame that the allocator has free |
| PathSegments.SpansAreRuns | kernel/libc/stdlib/cwalk.c:152-219 | the segments of a path are its maximal runs of other characters than separators |
| PathSegments.FindNextStop | kernel/libc/stdlib/cwalk.c:152-162 | the next separator or the end |
| PathSegments.FindPreviousStop | kernel/libc/stdlib/cwalk.c:164-179 | the start of the run of other characters |
| PathSegments.GetFirstSegment | kernel/libc/stdlib/cwalk.c:1173-1186 | the first segment |
| PathSegments.GetNextSegment | kernel/libc/stdlib/cwalk.c:1207-1243 | the segment after the cursor |
| PathSegments.GetPreviousSegment | kernel/libc/stdlib/cwalk.c:1245-1274 | the segment before the cursor, unless it is a one-character segment at the start |
| PathSegments.GetLastSegment | kernel/libc/stdlib/cwalk.c:221-239 | the last segment, if there is one |
| PathJoined.GetFirstSegmentJoined | kernel/libc/stdlib/cwalk.c:241-262 | the first segment of all paths |
| PathJoined.GetNextSegmentJoined | kernel/libc/stdlib/cwalk.c:264-301 | the next segment across path boundaries |
| PathJoined.GetPreviousSegmentJoined | kernel/libc/stdlib/cwalk.c:303-344 | the nearest earlier segment that is not hidden, across path boundaries |
| PathNormalize.BackWillBeRemoved | kernel/libc/stdlib/cwalk.c:346-386 | the backward counter scan over the segments that are not hidden |
| PathNormalize.NormalWillBeRemoved | kernel/libc/stdlib/cwalk.c:388-423 | the forward counter scan |
| PathNormalize.WillBeRemoved | kernel/libc/stdlib/cwalk.c:425-447 | whether the code drops the segment |
| PathNormalize.OutputSized | kernel/libc/stdlib/cwalk.c:42-69 | writes what fits, and returns the full length |
| PathNormalize.JoinAndNormalizeMultiple | kernel/libc/stdlib/cwalk.c:569-636 | the result is the root and the kept segments joined by separators; the buffer holds as much of it as fits, and its length is returned |
| PathStack.BackScanIsDepth | kernel/libc/stdlib/cwalk.c:346-386 | the backward scan finds a name exactly if the stack machine has one to pop |
| PathStack.ForwardScanIsPop | kernel/libc/stdlib/cwalk.c:388-423 | the forward scan finds a match exactly if the stack machine pops that name |
| PathStack.RemovedIsStack | kernel/libc/stdlib/cwalk.c:425-447 | with nothing hidden, a segment is kept by its own scan exactly if it is on the final stack |
| PathStack.KeptIsStack | kernel/libc/stdlib/cwalk.c:425-460 | for any list of segments the output is the stack, if and only if the path is absolute or hidden segments change no backward scan |
| PathStack.HiddenFirst | kernel/libc/stdlib/cwalk.c:1255-1264 | with the first name hidden the output is the stack, preceded by the ".." that popped that name if one did |
| PathStack.HiddenFirstExample | kernel/libc/stdlib/cwalk.c:1255-1264 | a name and "..": the stack is empty, the output is not |
| PathResolve.KeptAgainstStack | kernel/libc/stdlib/cwalk.c:569-636 | the same for any list of joined paths |
| PathResolve.NoShortIsStack | kernel/libc/stdlib/cwalk.c:569-636 | if no path has, first or right behind its root, a one-character segment that another follows, any list of joined paths is normalised as the stack machine does |
| PathResolve.AbsoluteIsStack | kernel/libc/stdlib/cwalk.c:569-636 | joined paths that start at the root are always normalised as the stack machine does |
| PathResolve.SingleIsStack | kernel/libc/stdlib/cwalk.c:1093-1103 | one path is normalised as the stack machine does, with an extra ".." in front exactly on the family named above |
| PathResolve.NormalizedReadsBack | kernel/libc/stdlib/cwalk.c:569-636 | the text of the result, split again, is the list of kept segments |
| PathResolve.StackMeans | kernel/fs/vfs.cpp:42-63 | in any directory tree, if the path resolves, its stack resolves to the same entry |
| PathResolve.NormalizedResolves | kernel/fs/vfs.cpp:42-63 | in any directory tree, if the path resolves, the normalised path resolves to the same entry, except on that family, where it is resolved from the parent |
| PathResolve.GetPath | kernel/fs/vfs.cpp:42-63 | resolves the path as given, from the root or from the entry itself |
| PathResolve.LookUpOne | kernel/fs/vfs.cpp:42-63 | a single name is looked up in the entry itself, and behind a separator in the root |
| PathResolve.NormalizedFits | kernel/fs/vfs.cpp:42-45 | a normalised path is not longer than the path, and as long only if it is the same |
| PathResolve.TerminatorOutside | kernel/fs/vfs.cpp:43-45 | the terminator lands behind the array exactly if the path is in normal form already |
| PathResolve.NormalizeExample | kernel/libc/stdlib/cwalk.c:1255-1264 | "a/.." is normalised to ".." |
| CircularList.Move | kernel/libc++/include/list.hpp:76-94 | moves one node in front of another in the ring of links |
| CircularList.List.PushFront | kernel/libc++/include/list.hpp:51-53 | a new node at the front, the others in their order |
| CircularList.List.MoveToFront | kernel/libc++/include/list.hpp:76-94 | the node at the front, the others in their order |
| LruModel.GetOrder | kernel/libc++/include/lru.hpp:55-89 | the order of the pool is the order of last use, cut to the size of the pool |
| LruModel.MruByLastUse | kernel/libc++/include/lru.hpp:55-89 | the order of the history is the order of last use, latest first, and it has every key that was used |
| LruModel.VictimIsOldest | kernel/libc++/include/lru.hpp:78-87 | a miss with a full pool replaces the last key and no other; every other cached key was used later than it, and every key that is not cached earlier |
| LruModel.GetKeeps | kernel/libc++/include/lru.hpp:55-89 | a get with its swap-out changes the contents of no other sector |
| LruModel.GetCounts | kernel/libc++/include/lru.hpp:55-89 | a get returns how often the key was used since it came in, 0 for a new one, and adds one; no other key is counted |
| LruModel.ReadIsFlat | kernel/dev/sata_dev.cpp:26-47 | a read finds the sector's contents, changes none, and keeps the cache in order |
| LruModel.WriteIsFlat | kernel/dev/sata_dev.cpp:54-69 | a write, in the direction of its comment, changes its bytes of its sector and nothing else |
| LruModel.RunIsFlat | kernel/dev/sata_dev.cpp:23-71 | any run of sector reads and writes delivers what a disk without a cache would |
| LruModel.CodedWriteIsFlat | kernel/dev/sata_dev.cpp:65 | as coded a write stores the bytes if and only if they are there already |
| LruModel.CodedPartialIsRead | kernel/dev/sata_dev.cpp:61-65 | as coded a round that does not cover its sector, or finds it cached, changes no sector and has its contents in the cache |
| LruModel.SectorHolds | kernel/dev/sata_dev.cpp:52-71 | after a write as coded each sector holds what it held before, or, if it is covered as a whole and not cached when its round comes, what the buffer held that the round gets |
| LruModel.CodedWriteExample | kernel/dev/sata_dev.cpp:65 | a byte that is lost |
| SataDev.Device.Get | kernel/libc++/include/lru.hpp:55-89 | the hit, the new entry and the replaced entry, with the dirty victim written to its sector |
| SataDev.Device.Read | kernel/dev/sata_dev.cpp:23-49 | the bytes of the flat disk from any position on, and no byte of it changes |
| SataDev.FlatDisk | kernel/dev/sata_dev.cpp:26-40 | with nothing cached, byte p of the flat disk is byte p % 512 of sector p / 512 |
| SataDev.Device.Write | kernel/dev/sata_dev.cpp:52-71 | the flat disk with the bytes put at that position, in the direction of the comment |
| SataDev.Device.StoreAsCoded | kernel/dev/sata_dev.cpp:54-65 | one round as coded: the cache as before its copy, and the caller's buffer overwritten from it |
| SataDev.Device.WriteAsCoded | kernel/dev/sata_dev.cpp:52-71 | as coded a write leaves the cache and the disk that one round for each sector makes of them; it changes no sector that it does not cover as a whole, and the caller's buffer gets what the flat disk holds there afterwards |
| Ext2Coords.CodeIsProper | kernel/fs/ext2/ext2_inode.cpp:175-206 | the code of a block number is a position, and decodes to that number |
| Ext2Coords.DecodeIsInverse | kernel/fs/ext2/ext2_inode.cpp:175-206 | a position is the code of its number |
| Ext2Coords.GetInstanceExact | kernel/fs/ext2/ext2_inode.cpp:175-206 | getInstance gives the code of its block if and only if the block is below 12 + 256 + 65536 + 65536 |
| Ext2Coords.NextIsSuccessor | kernel/fs/ext2/ext2_inode.cpp:277-300 | ++ goes to the next block, across every level boundary |
| Ext2Coords.NextAtEnd | kernel/fs/ext2/ext2_inode.cpp:291-294 | behind the last block the level is 4, where the code asserts |
| Ext2Coords.Forward | kernel/fs/ext2/ext2_inode.cpp:277-300 | k steps forward from block n reach block n + k |
| Ext2Coords.PrevIsPredecessor | kernel/fs/ext2/ext2_inode.cpp:306-320 | -- goes to the previous block, whatever is left beyond the level |
| Ext2Coords.Backward | kernel/fs/ext2/ext2_inode.cpp:306-320 | k steps back from block n reach block n - k |
| Ext2Coords.NextAfterStale | kernel/fs/ext2/ext2_inode.cpp:277-320 | ++ after -- is right if and only if it stays on the level or finds a zero there |
| Ext2Coords.StaleExample | kernel/fs/ext2/ext2_inode.cpp:277-320 | block 12, -- and ++: block 267 |
| Ext2File.Iterator.constructor | kernel/fs/ext2/ext2_inode.cpp:156-206 | stands where getInstance puts it with nothing loaded; on its block if and only if that is below 12 + 256 + 65536 + 65536, and only then can its index blocks be followed |
| Ext2File.Iterator.LoadBuf | kernel/fs/ext2/ext2_inode.cpp:219-247 | loads the index blocks on the way to the position, each number from its four bytes on the device, if and only if they are allocated; with nothing to start from it can only load nothing |
| Ext2File.Iterator.Increment | kernel/fs/ext2/ext2_inode.cpp:277-300 | the next position, loaded if it was loaded; it fails exactly behind the last block, at an index block that is not allocated, or on moving to another table below the inode's with nothing loaded |
| Ext2File.Iterator.Decrement | kernel/fs/ext2/ext2_inode.cpp:306-320 | the previous position, loaded if it was loaded; nothing at block 0; it fails exactly at an index block that is not allocated, or on moving to another table below the inode's with nothing loaded |
| Ext2File.Iterator.Deref | kernel/fs/ext2/ext2_inode.cpp:340-352 | the device block that the direct or indirect map gives for the block number, if and only if its index blocks are allocated |
| Ext2File.BlockPlace | kernel/fs/ext2/ext2_fs.cpp:53-58 | device block b occupies the bytes from b * 1024 on |
| Ext2File.BlockOfIs | kernel/fs/ext2/ext2_inode.cpp:219-247 | the map that the iterator follows is twelve blocks in the inode, then 256, 256^2 and 256^3 through index blocks of little-endian numbers |
| Ext2File.FileByteAt | kernel/fs/ext2/ext2_file.cpp:66-79 | a byte of the file lies in its data block on the device, at its offset in the block, and is zero if there is none |
| Ext2File.FileExample | kernel/fs/ext2/ext2_inode.cpp:219-247 | a device with an index block, and two bytes of the file found through it |
| Ext2File.File.Read | kernel/fs/ext2/ext2_file.cpp:57-86 | for every int position and length: fails exactly if a block from the first to the last is not mapped or the first is beyond getInstance; otherwise as many bytes as ReadLen says, each from its place on the device, which are those of the file if and only if none of them lies in a hole over a superblock byte other than zero, and the position moves behind them |
| Ext2File.ReadLenAsMeant | kernel/fs/ext2/ext2_file.cpp:58-74 | that number is the smaller of the length and what is left if and only if the length is not negative and the position not behind the end |
| Ext2File.ReadLenNegative | kernel/fs/ext2/ext2_file.cpp:58-74 | otherwise the read goes on to the first end of a block behind the position that is not before the end of the file |
| Ext2File.ReadBehindEnd | kernel/fs/ext2/ext2_file.cpp:58-74 | at offset 2000 of a file of 1000 bytes a read delivers 48 bytes |
| Ext2File.HoleIff | kernel/fs/ext2/ext2_fs.cpp:53-58 | a block whose index blocks are allocated is taken as it is if and only if it has a data block or the device bytes 1024 to 2047 are zero |
| Ext2File.HoleExample | kernel/fs/ext2/ext2_fs.cpp:53-58 | a hole that is read as ones |
| Bytes.LittleEndian | kernel/fs/ext2/ext2_inode.cpp:242 | four bytes on the device are a number, the lowest first |
| Dentry.WriteChildren | kernel/fs/ext2/ext2_dentry.cpp:104-134 | the bytes that go to the file for any list of entries, with record lengths of 16 bits |
| Dentry.LoadChildren | kernel/fs/ext2/ext2_dentry.cpp:28-84 | the entries found by following record lengths in each block, and in the memory behind it, until the size of the directory is reached |
| Dentry.DiskExample | kernel/fs/ext2/ext2_dentry.cpp:110-121 | one entry in its bytes: inode, record length, length of the name, kind, name |
| Dentry.RecLensSum | kernel/fs/ext2/ext2_dentry.cpp:122-130 | the record lengths in a printed block, one for each entry, sum to the size of the block |
| Dentry.RoundTripFrom | kernel/fs/ext2/ext2_dentry.cpp:49-134 | a printed block is parsed to the same entries, whatever lies behind it |
| Dentry.ReadsBackIff | kernel/fs/ext2/ext2_dentry.cpp:49-134 | a printed block is parsed to the same entries for all that may lie behind it if and only if the last entry fits |
| Dentry.ReadsBlocksIff | kernel/fs/ext2/ext2_dentry.cpp:50-81 | a directory of filled blocks is read as it is, whatever lies behind the buffer, if and only if the first block holds all of it |
| Dentry.RunsPastBlock | kernel/fs/ext2/ext2_dentry.cpp:50-81 | otherwise the entry after those of the first block is the one behind the buffer |
| Dentry.TwoBlocksExample | kernel/fs/ext2/ext2_dentry.cpp:50-81 | two blocks with one entry each, of which the second is not read |
| TicketLock.LockIsSafe | kernel/spin.c:5-14 | with up to 2^32 threads, in every run, at most one holder and strict order of tickets, whatever the counters wrap |
| TicketLock.FreeLockAdmitsOldest | kernel/spin.c:5-14 | a free lock admits exactly the thread that has waited longest |
| TicketLock.TooManyThreads | kernel/spin.c:5-14 | with one thread more, some run ends with two holders |
| TicketLock.SafeIffFewThreads | kernel/spin.c:5-14 | every run is exclusive if and only if there are at most 2^32 threads |
| Ipc.StepKeepsInv | kernel/process/ipc.c:6-30 | every memory step of sender and reader keeps the hand-over of the slot in order |
| Ipc.ExchangeIsSafe | kernel/process/ipc.c:6-30 | in every run without empty messages the bodies copied out are those copied in, complete, in ticket order, and one thread at a time uses the slot |
| IpcProgress.Delivers | kernel/process/ipc.c:6-30 | from a state in which nobody is in a call and all has been read, a sender and then a reader that go on alone finish, with the message and its length |
| IpcProgress.DeliversAll | kernel/process/ipc.c:6-30 | so any list of messages is delivered in its order |
| IpcLimits.EmptyMessageBreaks | kernel/process/ipc.c:22-26 | a run with an empty message that brings two threads into the slot |
| IpcLimits.ExclusiveIffNoEmpty | kernel/process/ipc.c:6-30 | the slot is exclusive in every run if and only if no message may be empty |
| IpcLimits.TwoLengthsBreak | kernel/process/ipc.c:29 | a run in which the returned length is not that of the body |
| IpcLimits.ReturnsLengthIffOneLength | kernel/process/ipc.c:17-30 | the returned length is that of the body in every run if and only if all messages that fit have one length |
| Guard.GuardIsSafe | kernel/libcxxrt/guard.cc:118-193 | in every layout and run the calls return what one-time construction allows, at most one thread builds, no assertion fails |
| Guard.BuiltOnce | kernel/libcxxrt/guard.cc:177-193 | after a release every acquire returns 0 |
| Guard.BuilderIsNext | kernel/libcxxrt/guard.cc:118-193 | after an acquire that returned 1 the next to return is the release or abort of that thread |
| Guard.DoneMeansReleased | kernel/libcxxrt/guard.cc:118-163 | 0 is returned only after a release |
| Guard.WaitsForOwner | kernel/libcxxrt/guard.cc:128-162 | an acquire goes round only while another thread has the lock |
| Guard.AcquireReturns | kernel/libcxxrt/guard.cc:118-163 | in every run, if nobody is past the swap, a thread that calls acquire and goes on alone returns within four steps, 0 if the object has been released and 1 otherwise |
| Guard.ReturnsAlone | kernel/libcxxrt/guard.cc:118-163 | the same for a thread that is anywhere in an acquire |
| Guard.BuiltReturnsAtOnce | kernel/libcxxrt/guard.cc:125-126 | once the object has been released an acquire returns 0 at its first step, whoever holds the lock |
| Guard.BuiltReturnsSoon | kernel/libcxxrt/guard.cc:128-162 | and within three steps from anywhere in it |
| Guard.ReleaseFrees | kernel/libcxxrt/guard.cc:177-193 | a release is over, with nobody holding the lock, after at most one more step |
| ListLinks.LinkedUnique | kernel/include/list.h:23-63 | the links determine the list |
| ListLinks.ListAdd | kernel/include/list.h:23-34 | the entry comes first; only links of the list and of the entry change |
| ListLinks.ListAddTail | kernel/include/list.h:36-38 | the entry comes last; only links of the list and of the entry change |
| ListLinks.ListRemove | kernel/include/list.h:40-45 | takes out exactly the given entry, which is then linked to itself |
| ListLinks.ListPopHead | kernel/include/list.h:57-63 | takes out the first entry, or returns none for the empty list |
| Scheduler.RunQueue.constructor | kernel/process/scheduler.c:10-18 | all threads linked into the running list, the last one added first, the blocked list empty, and no current thread |
| Scheduler.RunQueue.Schedule | kernel/process/scheduler.c:31-58 | the head of the running list is relinked at its end and runs; false if nothing can run; the links say so, and those of the blocked list stay |
| Scheduler.RunQueue.ThreadWait | kernel/process/scheduler.c:64-71 | the current thread is unlinked from the running list and linked first into the blocked list, and the next one runs |
| Scheduler.RunQueue.ThreadResume | kernel/process/scheduler.c:73-104 | walking the links while it unlinks: wakes every thread blocked with the value, or, for a semaphore or a file, the first one only; each goes to the head of the running list |
| Scheduler.RunQueue.DoPasseren | kernel/spin.c:32-39 | the down step, returning the old value |
| Scheduler.RunQueue.DoVerhoog | kernel/spin.c:41-48 | the up step, returning the old value; below zero the first waiter goes to the head of the running list |
| Scheduler.WaitOk | kernel/process/scheduler.c:64-71 | every thread stays on exactly one list; the caller stops running if and only if another thread can run |
| Scheduler.WaitMoves | kernel/process/scheduler.c:64-71 | a wait puts the thread first in the blocked list with what it waits for, and the head of the others runs |
| Scheduler.WakeOneMoves | kernel/process/scheduler.c:91-96 | a wake-up of one moves the first waiter for the value to the head of the running list, and nothing else |
| Scheduler.UpRunsNext | kernel/spin.c:41-48 | after an up that finds the value below zero, the thread that it wakes runs at the next schedule |
| Scheduler.WokenRunFirst | kernel/process/scheduler.c:84-90 | after the wake-up of all, the next schedules run the woken threads, the one found last first, and then the old running threads in their order |
| Scheduler.RoundRobin | kernel/process/scheduler.c:31-58 | running threads take turns in list order |
| Scheduler.StartOrder | kernel/process/scheduler.c:15-18 | at the start the threads run in the reverse of the order in which they were added |
| Scheduler.DownKeeps | kernel/spin.c:32-39 | after a down as many threads wait for each semaphore as it is below zero |
| Scheduler.UpKeepsIff | kernel/spin.c:41-48 | after an up too, if and only if the woken thread was waiting for a semaphore |
| Scheduler.CollisionExample | kernel/spin.c:41-48 | a state with a thread that waits for a process, in which an up does not |
| Scheduler.RunConserves | kernel/spin.c:32-48 | after any run: value is initial value less downs plus ups, waiters are max(0, -value), every thread on exactly one list |
| Scheduler.UpUndoesDown | kernel/process/scheduler.c:91-96 | an up right after a blocking down wakes that thread and no older waiter |
| Scheduler.UpsCount | kernel/spin.c:41-48 | any number of ups takes as many threads off the waiters as find the value below zero |
| Scheduler.LostWakeUp | kernel/spin.c:32-39 | n ups between the decrement and the wait leave as many waiters as the value is below zero if and only if n is at most -value, which is the number of older waiters |
| Strtol.Cutoff | kernel/libc/stdlib/strtol.c:66-81 | the overflow test is exact: it holds if and only if the next digit would pass the limit |
| Strtol.Strtol | kernel/libc/stdlib/strtol.c:14-96 | the value of the longest run of digits, clamped to long, and the end of that run or the start of the string; a bad base is refused |
| Strtol.StandardIff | kernel/libc/stdlib/strtol.c:40-45 | value and end are those of C11 if and only if there is no 0x without a digit behind it |
| Strtol.InRangeExact | kernel/libc/stdlib/strtol.c:88-95 | the result is the number itself if and only if it is in the range of long |
| Strtol.NearestLong | kernel/libc/stdlib/strtol.c:88-95 | for any digits the result is the long nearest to the number |
| Strtol.PrintParse | kernel/libc/stdlib/strtol.c:14-96 | a number of any size, printed in base 2 to 36 with blanks, sign, prefix and digits of either case, is parsed to itself, or outside of long to LONG_MAX or LONG_MIN on its side, with the end behind its last digit |
| Strtol.DigitIff | kernel/libc/stdlib/strtol.c:69-77 | the value of a digit is its place in 0 to 9 and a to z or A to Z |
| Strtol.NothingRead | kernel/libc/stdlib/strtol.c:94-95 | value 0 and end at the start of the string if and only if no digit comes where the digits should start |

## Left out

- FrameAllocator.FrameTable.FrameAlloc: returns `NoFrame` or `AssertFailed` where the code returns frame 0 after logging or stops at an assertion; callers of the model stop there, the code goes on with frame 0.
- FrameAllocator.FrameTable.AddAvailable: one usable frame; reading the memory map of the boot loader is not part of this model.
- PageTables.Kernel.SetEntry: says nothing about a call that exhausts the frames. Entries are numbers; bits above the address (NX) do not occur in entries of tables.
- UserSpace.CreateUserPage: does not model the list of frames of the process (`add_to_mem_list`) and requires the kernel tables that the code follows without looking at their present bit.
- SlabModel.NoDoubleObject: for runs that strand nothing before their last call; what the code does with a list that holds a slab given back is not modelled.
- Slab.Cache.AddSlab: slabs of one page, because `kernel_pages_alloc` does not promise contiguous frames; mapping the page in the kernel's tables, which may take frames for tables, is in `PageTables` and not repeated here.
- PathNormalize.JoinAndNormalizeMultiple: paths are strings without a zero character, and the buffer is another object than the paths; the Windows style, `get_relative` and `get_intersection` are not modelled.
- PathResolve.GetPath: the model's buffer has the size that the code passes on; what the shorter one of the code misses is in `PathResolve.TerminatorOutside`. Loading the children of a directory is the function `child`.
- SataDev.Device.Write: in the direction of the comment; the code is `SataDev.Device.WriteAsCoded`.
- SataDev.Device.Get: a swap-out stores the victim in its sector; kernel/dev/sata_dev.cpp:19 hands `sata_write` a frame number where line 40 hands `sata_read` an address, and the transfer itself is not modelled. Use counts do not overflow.
- Ext2File.Iterator.LoadBuf: reading only; automatic allocation and write-back are not modelled. A step or read that follows a null buffer or an index behind its table fails, as does one at an index block that is not allocated, where the code asserts. The block size is 1024, because the code has 256 built in.
- Ext2File.Iterator.Decrement: requires that the first index is not 0 unless the block is, as it is on every block; otherwise the code writes in front of its array.
- Ext2File.File.Read: the buffer has room for what is read, the file is smaller than 2 GB, and the data blocks that the map names are on the device, which is smaller than 4 GB.
- Dentry.WriteChildren: what it hands to `EXT2_File::write`; the resizing that this does is not modelled.
- Dentry.RecLensSum: for a directory that fits one block with its last entry beginning inside it.
- TicketLock.LockIsSafe: memory accesses are taken as one total order; `irq_spin_take` and `irq_spin_give` add interrupt masking to the same steps.
- Ipc.ExchangeIsSafe: messages fit the slot, and the process has a slot (`shared_mem` is not NULL); fewer than 2^32 threads.
- Guard.GuardIsSafe: memory accesses are taken as one total order.
- Scheduler.RunConserves: each call is one step, the caller is on the running list, wait values of other kinds are not addresses of semaphores, all semaphores are in one address space, and the semaphore word does not wrap. Context switching is not modelled.
- Strtol.Strtol: `long` has 64 bits; setting `errno` is not modelled.
- Spin locks, the message slot and the guard are state machines over values and not classes, because what matters is the interleaving of their memory accesses.
- The rest of the kernel (boot code, drivers, interrupts, the ELF loader, console and shell, `vsnprintf`, `tick.c`, `krealloc`, `do_sbrk`, ending processes, allocation in ext2) is not modelled.
