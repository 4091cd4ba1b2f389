# Verified models of the Pintos kernel

Dafny models of the parts of this Pintos kernel where state, arithmetic and sharing meet, with proofs of
what each part is for. `dafny verify dfyconfig.toml` checks all of it.

- **Storage stack.** `Bitmap.dfy` (bitmaps packed in words), `FreeMap.dfy` (free sectors), `Cache.dfy` (the
  64-entry write-back sector cache), `InodeIndex.dfy` and `Inode.dfy` (files over direct, indirect and doubly
  indirect sectors), `Directory.dfy`. A file is a growable byte array: the cache and the three index levels are
  invisible, and a directory is a finite map from names to sectors.
- **Demand paging.** `Paging.dfy` gives the state, the steps and the meaning of a state as flat memory of every
  process; `VirtualMemory.dfy` is the code of the frame table, the swap table and the page fault handler, each
  method proved to be one of the steps; `Loader.dfy` checks program headers and enters segments lazily.
- **Allocators.** `Palloc.dfy` (page pools) and `Malloc.dfy` (blocks in arenas) on top of the same bitmaps.
- **Containers and sorting.** `List.dfy` sorts an intrusive doubly linked list in place and is proved against
  `Sorting.dfy`; `Hash.dfy` is the self-resizing hash table; `HeapSort.dfy` sorts arrays in place.
- **64-bit division.** `Arithmetic.dfy` builds it from the 32-bit instruction, with the error bound of the estimate.
- **Semaphores and locks.** `Synch.dfy` is the step protocol with its run theorems; `Semaphore.dfy` is the code
  between disabling and enabling interrupts, on the linked list of waiters.
- **Program arguments.** `Tokenizer.dfy` and `ArgStack.dfy`: the initial user stack decodes to the command line.
- `Disk.dfy` and `Wrappers.dfy` hold bytes, words, strings, options and the page size.

Classes stand for what the kernel updates in place. Where a class has several parts, a function (`View`,
`Snap`, `Contents`, `Items`) gives its abstract value, and the laws are proved about that value. Integers are
unbounded, with 32- and 64-bit wrap-around written out where the code depends on it. Whether memory
can be had, what bytes unwritten memory holds and whether a thread holds the file lock are parameters, so that
every outcome is covered; whether writing the free map succeeds is one of `FreeMaps.FreeMap.Allocate`.

Some promises hold only under a condition; the members named here give it exactly.

- A read that starts beyond the end of a file stops the kernel (`Inodes.FileSystem.ReadAt`). So does a write there
  that finds too few free sectors for its index, while one that finds too few for its data alone goes to sectors
  that are not the file's own (`Inodes.FileSystem.WriteAt`).
- The remainder routines return 32 bits: they are right for all dividends exactly when the divisor is small
  (`Arithmetic.UmodExact`, `Arithmetic.SmodExact`).
- A segment that shares a page with an earlier one does not get its bytes there (`Loaders.SegmentMeaning`,
  `Loaders.SharedPageLosesByte`).
- A file shorter than its segment is found out only by the page fault (`Loaders.ShortFileAccepted`). That stops the
  kernel for a page beyond the end of the file (`Loaders.PageBeyondFile`) and for a full page without the file
  lock (`VirtualMemories.VirtualMemory.LoadLazily`), and otherwise leaves a frame behind that belongs to no page
  (`VirtualMemories.TakenUnsound`).
- An evicted page is brought back unless it was clean and its entry does not describe a whole page
  (`VirtualMemories.EvictedFault`), which is so for stack pages (`VirtualMemories.StackPageLostInRun`).
- A new directory with space for entries is empty exactly when its sectors held 0 in certain places
  (`Directories.Create`, `Directories.StaleRootDirectory`).
- `sema_up` prefers the earliest waiter of a priority only as long as priority changes keep turns
  (`Synch.DonationOrder`, `Synch.DonationOvertakes`).
- `malloc` of more than 2 to the 32 less 12 bytes returns a single page (`Mallocs.PageCntRoom`), so that `realloc`
  can overrun it (`Mallocs.Heap.Realloc`, `Mallocs.MoveOverruns`).

Comments and code disagree in places, and the models follow the code: `inode_write_at` does grow files, the
release of a lock clears the holder before it disables interrupts, and `swap_set` asserts that the bit is on.

## Model

| member | source | states |
|---|---|---|
| Bitmaps.UnpackMark | pintos/src/lib/kernel/bitmap.c:156-167 | Or-ing a mask into one word of the packed map turns on one bit of the map and no other, for every map size. |
| Bitmaps.UnpackReset | pintos/src/lib/kernel/bitmap.c:169-180 | And-ing one word with a complemented mask turns off one bit of the map and no other. |
| Bitmaps.MaskTest | pintos/src/lib/kernel/bitmap.c:197-204 | The masked word differs from zero exactly when the bit under the mask is on. |
| Bitmaps.Bitmap.SetMultiple | pintos/src/lib/kernel/bitmap.c:216-229 | Afterwards the range has the value everywhere and every bit outside it is as before. |
| Bitmaps.Bitmap.Contains | pintos/src/lib/kernel/bitmap.c:249-264 | True exactly when the range is not a group of the opposite value. |
| Bitmaps.Bitmap.Scan | pintos/src/lib/kernel/bitmap.c:291-312 | The least start at or after the given one of a group of that many equal bits; an error exactly when there is none. |
| Bitmaps.Bitmap.ScanAndFlip | pintos/src/lib/kernel/bitmap.c:314-328 | First fit refined on words: the least group is found and flipped, nothing else changes, and an error changes nothing. |
| Bitmaps.TakeThenRelease | pintos/src/lib/kernel/bitmap.c:314-328 | Taking a first fit and giving it back restores the map bit for bit. |
| FreeMaps.OneSector | pintos/src/filesys/free-map.c:22-40 | A one-sector request fails exactly when the count of free sectors is 0, and otherwise lowers the count by one. |
| FreeMaps.NthBefore | pintos/src/filesys/free-map.c:22-40 | Requests for one sector take the free sectors in ascending order: the next one taken is the one whose rank among the sectors free at the start is the number taken so far. |
| FreeMaps.InOrderTook | pintos/src/filesys/free-map.c:22-40 | Sectors taken in order are exactly the first free ones: a sector is in use afterwards if and only if it was before or had fewer free sectors in front of it than were taken. |
| FreeMaps.FreeMap.Allocate | pintos/src/filesys/free-map.c:22-40 | First fit; when the changed map cannot be written out, the map is as before and the request fails. |
| FreeMaps.FreeMap.Release | pintos/src/filesys/free-map.c:42-49 | Exactly the released sectors become free. |
| SectorCaches.MoveToBackView | pintos/src/filesys/cache.c:78-94 | Reordering the cache changes neither its coherence nor what clients see. |
| SectorCaches.WriteBackView | pintos/src/filesys/cache.c:97-108 | Writing a dirty buffer back is invisible to clients, and the entry then equals the disk. |
| SectorCaches.DropCleanView | pintos/src/filesys/cache.c:111-135 | Dropping a clean entry is invisible to clients. |
| SectorCaches.TouchHit | pintos/src/filesys/cache.c:78-94 | On a hit the order of the entries stays the order of last access over the whole history of accesses. |
| SectorCaches.TouchMiss | pintos/src/filesys/cache.c:55-73 | On a miss with 64 entries the sector dropped is the one whose last access is longest ago. |
| SectorCaches.SectorCache.FindCache | pintos/src/filesys/cache.c:78-94 | Finds a sector exactly when it is cached, makes it the most recent entry, and changes nothing that clients see. |
| SectorCaches.SectorCache.EvictCache | pintos/src/filesys/cache.c:111-135 | Drops the least recent entry after write-back; the view, distinctness and cleanness of the rest survive. |
| SectorCaches.SectorCache.MakeCache | pintos/src/filesys/cache.c:55-73 | Makes room if need be; only the view of the new sector changes, to the buffer it is given; at most 64 distinct entries stay. |
| SectorCaches.SectorCache.Read | pintos/src/filesys/cache.c:141-161 | Returns the bytes of the view and leaves the view alone, on a hit and on a miss. |
| SectorCaches.SectorCache.Write | pintos/src/filesys/cache.c:163-181 | The view changes by exactly the written bytes of one sector, also when part of an uncached sector is written. |
| SectorCaches.SectorCache.WriteBehindAll | pintos/src/filesys/cache.c:184-201 | One sweep leaves the disk equal to the unchanged view. |
| SectorCaches.SectorCache.Destroy | pintos/src/filesys/cache.c:205-226 | At shutdown the cache is empty and the disk is what clients saw. |
| InodeIndex.GrowthExact | pintos/src/filesys/inode.c:102-121 | Sectors held plus sectors added for the growth beyond the slack are exactly the sectors the new length needs, also when the growth fits in the last sector. |
| InodeIndex.CellsDistinct | pintos/src/filesys/inode.c:39-87 | No two of the header, index and data slots of a file have their pointers in the same place. |
| InodeIndex.DataLoc | pintos/src/filesys/inode.c:39-87 | Where data sector k is found at each of the three levels: 64 direct, 128 indirect, 128 times 128 doubly indirect. |
| InodeIndex.TotalGrow | pintos/src/filesys/inode.c:123-185 | Each further data sector costs itself plus the index blocks that its place in the three levels requires. |
| InodeIndex.TotalIs | pintos/src/filesys/inode.c:102-190 | The sectors a file needs in all, in numbers: one index block from 65 data sectors on, and from 193 on another with one more for every 128. |
| InodeIndex.IndexMissing | pintos/src/filesys/inode.c:133-180 | When an index block cannot be had, the free sectors are too few for the growth, and it is not one that runs out at a data sector with no index block to come. |
| InodeIndex.SectorsDistinct | pintos/src/filesys/inode.c:102-190 | Data and index sectors, of one file or of two, are pairwise distinct. |
| InodeIndex.TreeFrame | pintos/src/filesys/inode.c:102-190 | The index of a file survives every change that leaves its own index blocks alone. |
| InodeIndex.SetHeaderCell | pintos/src/filesys/inode.c:135-162 | Storing a pointer for an unused slot in the header moves no sector in use. |
| InodeIndex.SetBlockCell | pintos/src/filesys/inode.c:148-177 | Storing a pointer for an unused slot in an index block moves no sector in use, of any file. |
| Inodes.OthersKept | pintos/src/filesys/inode.c:102-190 | Files other than the one that grows keep their index and all their bytes. |
| Inodes.GrowthAbandoned | pintos/src/filesys/inode.c:102-190 | A growth that fails half way leaves the file with its old index, length and bytes. |
| Inodes.GrowthCompleted | pintos/src/filesys/inode.c:102-190 | Once the new length is stored the index is well formed for it and the old bytes are unchanged. |
| Inodes.GrownBytes | pintos/src/filesys/inode.c:131-190 | Growth clears nothing: each new byte is the one that stood behind the end in the last sector, or the one that the free sector of the given rank held. |
| Inodes.ChunkBytes | pintos/src/filesys/inode.c:397-438 | Bytes of a file that share a sector are consecutive bytes of that sector. |
| Inodes.WriteChunk | pintos/src/filesys/inode.c:466-495 | Overwriting part of a data sector overwrites those bytes of its file and no byte of any other file. |
| Inodes.FileSystem.AppendOne | pintos/src/filesys/inode.c:123-185 | One round of growth: existing pointers stay, the new sector is linked at its level and is the next free one behind its index blocks, and free sectors are used up exactly as counted; fails exactly when an index block cannot be had. |
| Inodes.FileSystem.AppendAll | pintos/src/filesys/inode.c:123-185 | The growth loop reaches the wanted number of data sectors, each the free sector of its rank, or runs out of sectors at a data sector; it fails exactly when that happens at an index block. |
| Inodes.FileSystem.Expand | pintos/src/filesys/inode.c:102-190 | Succeeds with every data sector backed exactly when enough sectors were free, and without exactly when they run out at a data sector and no later one needs an index block; in the first case the index is well formed for the new length, old bytes are kept and new bytes are what the sectors held; a failure leaves the file as it was; other files never change. Of the free sectors exactly the first ones are taken, as many as are needed or all there are; the other fields of the header stay. |
| Inodes.FileSystem.ByteToSector | pintos/src/filesys/inode.c:39-87 | The sector that the index assigns to the byte, read through the cache; nothing past the end of the file. |
| Inodes.FileSystem.InodeLength | pintos/src/filesys/inode.c:521-529 | The stored length; looking it up changes nothing. |
| Inodes.FileSystem.GrowTo | pintos/src/filesys/inode.c:456-464 | The file reaches the end of the write, with old bytes kept and new bytes as the sectors held them, exactly when enough sectors are free; it grows with sectors that are not its own exactly when they run out at a data sector and no later one needs an index block; otherwise it stays as it was. Free sectors are taken only for growth, exactly as many as it needs or all there are. |
| Inodes.FileSystem.ReadAt | pintos/src/filesys/inode.c:397-438 | Returns exactly the bytes of the range cut off at the end of the file and changes no file; stops the kernel exactly when something is asked for and the offset is beyond the end of the file. Only data sectors of the file are queued for reading ahead. |
| Inodes.FileSystem.WriteAt | pintos/src/filesys/inode.c:445-499 | With enough free sectors the file becomes its old bytes with the data spliced in, with length the larger of the old one and the end of the write, and a gap holds what its sectors held. With too few it keeps its length and takes the part of the data that fits, a write that starts beyond the end stopping the kernel; but growth reports success with sectors that are not its own exactly when they run out at a data sector and no later one needs an index block. In all other cases every other file is unchanged; a denied write changes nothing. A write inside the file takes no free sector; any other takes exactly the first ones, as many as the growth needs or all there are. |
| Inodes.ReadBack | pintos/src/filesys/inode.c:397-499 | Reading the written range returns the written data, and reading any old range beside it returns what it did before. |
| Inodes.FreshFile | pintos/src/filesys/inode.c:199-231 | A fresh header makes an empty well-formed file and disturbs no other. |
| Inodes.FileSystem.Create | pintos/src/filesys/inode.c:199-231 | Makes one more file and leaves all others as they are; it has the requested length with every sector its own exactly when enough are free, and then holds what the free sectors of the given ranks held; a reported failure leaves it empty; the case of sectors that are not its own is exact. The header has the given kind and parent, and exactly the first free sectors are taken. |
| Directories.MadeEntry | pintos/src/filesys/directory.c:169-173 | The entry written for a name and a sector reads back as that name in use with that sector, whatever bytes were there before. In bytes: the sector in the first four, the name with its null from the fifth on, and 1 in the last. |
| Directories.BindingsAre | pintos/src/filesys/directory.c:78-101 | A directory whose names in use are unique is a finite map that binds each of them to the sector of its one slot. |
| Directories.AddBinding | pintos/src/filesys/directory.c:137-177 | Taking a slot that is free, or one behind the last, adds one binding and keeps names unique. |
| Directories.EraseBinding | pintos/src/filesys/directory.c:182-207 | Releasing a slot removes its binding and no other. |
| Directories.WriteSlot | pintos/src/filesys/directory.c:157-173 | Writing an entry at the offset of a slot changes that slot alone. |
| Directories.ListingComplete | pintos/src/filesys/directory.c:216-234 | Reading from position 0 lists every bound name and none twice. |
| Directories.Create | pintos/src/filesys/directory.c:11-17 | The new directory is empty if and only if the free sectors it is made of hold 0 at the in-use flags of its entries, whatever their number; with space for 0 entries it always is. It is marked as a directory with the given parent. |
| Directories.FirstSectorDecides | pintos/src/filesys/directory.c:11-17 | For the first 25 entries that is the first free sector. |
| Directories.StaleRootDirectory | pintos/src/filesys/filesys.c:350-359 | Disks of four sectors on which formatting makes a root directory of 16 entries that is not empty. |
| Directories.Directory.Lookup | pintos/src/filesys/directory.c:78-101 | Finds a name exactly when it is bound, with the entry and offset of its slot; changes nothing. |
| Directories.Directory.Add | pintos/src/filesys/directory.c:137-177 | Succeeds exactly for names of 1 to 14 characters that are not bound, on a writable directory, with room for the entry on the disk; adds that binding alone, and a refusal leaves the bindings; other files are unchanged. The case of a directory that grows by a sector that is not its own is exact. Free sectors are taken only for the growth of the directory. |
| Directories.Directory.Remove | pintos/src/filesys/directory.c:182-214 | Succeeds exactly when the name is bound and its inode opens, on a writable directory; removes that binding alone, and a failure changes nothing. No free sector is taken. |
| Directories.Directory.ReadDir | pintos/src/filesys/directory.c:216-234 | Returns the next name of the listing from the reading position and moves behind it; at the end nothing is left. |
| Directories.Directory.IsEmpty | pintos/src/filesys/directory.c:236-249 | True exactly when the directory binds no name. |
| Paging.StoreThenLoad | pintos/src/vm/swap.c:45-78 | A page written to a swap slot in eight sectors reads back, and the other slots keep theirs. |
| Paging.FramesDistinct | pintos/src/vm/frame.c:24-40 | Two mapped pages never share a frame. |
| Paging.EvictKeeps | pintos/src/vm/frame.c:64-108 | Evicting the oldest frame, to swap or by dropping it, keeps the invariant and changes no byte of any process. |
| Paging.EvictionMakesRoom | pintos/src/vm/frame.c:24-40 | When the pool is exhausted there is a frame to evict, and the allocation after the eviction succeeds. |
| Paging.FaultKeeps | pintos/src/userprog/exception.c:203-313 | A resolved fault maps a frame that holds what the page held, be it in swap, in its file or zero, and changes no byte of any process. |
| Paging.GrowKeeps | pintos/src/userprog/exception.c:180-200 | Growing the stack adds one zeroed page to one process and changes nothing else. |
| Paging.WriteKeeps | pintos/src/userprog/pagedir.c:160-187 | A store changes one byte of one page of one process. |
| Paging.InsertKeeps | pintos/src/vm/page.c:26-45 | Entering a page adds the bytes promised for it and changes no other page. |
| Paging.FreeKeeps | pintos/src/vm/page.c:87-109 | Giving up a page affects no other page and returns its frame and its swap slot. |
| Paging.Conserved | pintos/src/vm/swap.c:30-78 | Frames, used pool pages and mapped pages are equally many in every sound state, and so are set swap bits and swapped pages. |
| Paging.NextRefines | pintos/src/userprog/exception.c:176-315 | Every step of paging is a step of flat memory, or invisible there, and a load yields the byte of flat memory. |
| Paging.RunRefines | pintos/src/userprog/exception.c:176-315 | Over every interleaving of loads, stores, evictions, faults, growth and exits the state is sound and shows what the stores made of the initial images. |
| Paging.ReadsLastStored | pintos/src/userprog/exception.c:176-315 | Every load of every run yields the byte last stored there, or the initial byte if none was. |
| Paging.TableInOrder | pintos/src/vm/frame.c:24-40 | In every state of every run the frame table lists the mapped pages in the order in which they were mapped last. |
| Paging.EvictsOldest | pintos/src/vm/frame.c:64-108 | First in, first out: in every run the page that an eviction takes away was mapped before every other page that is mapped then. |
| Paging.NoStoreToReadOnly | pintos/src/userprog/pagedir.c:90-120 | In no run is there a store to a page whose entry is not writable, until the page is given up. |
| VirtualMemories.VirtualMemory.SwapOut | pintos/src/vm/swap.c:45-60 | Uses a free slot and stores the page there sector by sector; there is none exactly when every bit is set. |
| VirtualMemories.VirtualMemory.SwapIn | pintos/src/vm/swap.c:63-78 | Frees the slot and brings its page into the frame sector by sector. |
| VirtualMemories.VirtualMemory.EvictHead | pintos/src/vm/frame.c:64-108 | Is the eviction step, and fails exactly when the page is dirty and swap is full. |
| VirtualMemories.VirtualMemory.FrameAlloc | pintos/src/vm/frame.c:24-40 | Yields the first free frame and puts it at the end of the table; evicts, once and invisibly, exactly when none is free, and fails exactly when pool and swap are exhausted. |
| VirtualMemories.VirtualMemory.FrameFree | pintos/src/vm/frame.c:47-60 | The frame with the given address leaves the table and its page goes back to the pool, overwritten; an address that no frame has changes nothing. |
| VirtualMemories.VirtualMemory.GrowStack | pintos/src/userprog/exception.c:180-200 | Is the growth step after room has been made, or stops the kernel exactly when there is no frame to be had. The page is writable. |
| VirtualMemories.StackAccessIs | pintos/src/userprog/exception.c:185-186 | An access counts as one to the stack exactly when it is at or above 0xBF800000 and at most 32 bytes below a stack pointer that is at least 32. |
| VirtualMemories.VirtualMemory.SwapBack | pintos/src/userprog/exception.c:204-222 | Is the fault step for a swapped page after room has been made. |
| VirtualMemories.VirtualMemory.LoadLazily | pintos/src/userprog/exception.c:223-312 | Is the fault step for a page not loaded. Stops the kernel exactly when the sizes do not add up to a page, no frame is to be had, the page starts beyond the end of its file, or the file is too short for a full page and the thread does not hold the file lock that is released then; any other short read gives up with the frame left in the table. |
| VirtualMemories.VirtualMemory.PageFault | pintos/src/userprog/exception.c:136-317 | Which faults kill the process, stop the kernel (a page beyond the end of its file included), fail on a short file with or without the file lock, or are resolved, each exactly; a resolved fault leaves a sound state with the page mapped and memory as before, up to the new stack page. A fault on a user page without an entry kills the process exactly when the address is below 0xBF800000, or more than 32 bytes below the stack pointer, or that is below 32. The page is mapped writable exactly when it is new or its entry is. |
| VirtualMemories.TakenUnsound | pintos/src/userprog/exception.c:289-294 | After a short read the frame stays in the table without a mapping: the invariant is lost, always, because the frame is looked up by the wrong address. |
| VirtualMemories.EvictedFault | pintos/src/vm/frame.c:64-108 | After an eviction the next fault on the page stops the kernel exactly when no frame is to be had, or the page was clean and its entry does not describe a whole page; otherwise the fault is resolved. |
| VirtualMemories.CleanStackPageLost | pintos/src/userprog/exception.c:224-227 | A stack page evicted before any store to it is never brought back: the next fault on it stops the kernel, although flat memory still has it, as a page of zeros. |
| VirtualMemories.StackPageLostInRun | pintos/src/userprog/exception.c:180-200 | A run of two steps from a sound state without pages, growth and eviction, that loses a stack page while a frame is free. |
| VirtualMemories.VirtualMemory.Store | pintos/src/userprog/pagedir.c:160-187 | A store through a writable mapping is the write step of flat memory; it sets the dirty bit that decides between swap and dropping. |
| VirtualMemories.VirtualMemory.Load | pintos/src/userprog/pagedir.c:122-138 | A load through a mapping yields the byte of flat memory. |
| VirtualMemories.VirtualMemory.PageTableFree | pintos/src/vm/page.c:87-109 | Gives up exactly one page of flat memory. |
| VirtualMemories.VirtualMemory.PageTableRemove | pintos/src/vm/page.c:22-24 | After an exit exactly the pages of that process are gone. |
| Loaders.AcceptedRange | pintos/src/userprog/process.c:440-481 | A header passes the checks exactly when its segment lies in user space above page 0 without wrapping, has no more file bytes than memory, starts within the file, and agrees with the file modulo the page size. |
| Loaders.LayoutExact | pintos/src/userprog/process.c:380-407 | For every accepted header the page arithmetic in 32 bits does not wrap and covers the segment with whole pages, not one too many. |
| Loaders.WithPagesAre | pintos/src/userprog/process.c:497-591 | Exactly one entry per page of the segment; pages that have one and all other pages keep theirs. |
| Loaders.PageImage | pintos/src/userprog/process.c:497-591 | Page by page the entries promise what loading the segment at once would put there. |
| Loaders.AllBacked | pintos/src/userprog/exception.c:229-294 | All pages of the segment can be read in exactly when the file reaches to the end of its file part. |
| Loaders.PageInsert | pintos/src/vm/page.c:26-45 | A page without an entry gets an unloaded one; a page that has one is only marked unloaded. |
| Loaders.LoadSegment | pintos/src/userprog/process.c:497-591 | Enters one unloaded page after the other; each reads and zero-fills 4096 bytes in all. New entries have the permission of the segment. |
| Loaders.SegmentAccess | pintos/src/userprog/process.c:380-407 | Every page of an accepted segment has an entry with the permission of the header, or of the earlier segment that has the page. |
| Loaders.SegmentMeaning | pintos/src/userprog/process.c:380-407 | Flat memory holds at each address of the segment the byte that the header promises, exactly unless an earlier segment has the page and promises another byte there; pages of earlier segments keep what those promise. The permission is that of the header, or of the earlier segment. |
| Loaders.LazyEqualsEager | pintos/src/userprog/exception.c:224-312 | In every run, whatever the order of faults and evictions, a load of a byte of the segment that no store has reached yields the promised byte, or, on a page that an earlier segment has, the byte promised for that one. |
| Loaders.ReadOnlySegment | pintos/src/userprog/process.c:380-407 | In no run after a segment that is not writable was entered is there a store to a byte of it, on a page that no earlier segment has, until the page is given up. |
| Loaders.SharedPageLosesByte | pintos/src/vm/page.c:26-45 | Two headers that are both accepted and share a page: the one byte of the second segment reads as zero. |
| Loaders.ShortFileAccepted | pintos/src/userprog/process.c:440-481 | A header can be accepted although its file ends before the segment does; the fault on the page then fails, and for a full page stops the kernel unless the thread holds the file lock. |
| Loaders.PageBeyondFile | pintos/src/userprog/process.c:440-481 | Nor is a header refused whose second page starts beyond the end of the file; the fault on that page stops the kernel, with or without the file lock. |
| Arithmetic.Nlz | pintos/src/lib/arithmetic.c:39-73 | Shifting by the result brings the top bit of the word up to position 31. |
| Arithmetic.SmallDivisor | pintos/src/lib/arithmetic.c:80-112 | Long division by a 32-bit divisor: the DIVL quotient fits in 32 bits and the two parts add up to the quotient. |
| Arithmetic.EstimateBound | pintos/src/lib/arithmetic.c:115-124 | Dividing by the divisor with its low bits cleared gives the quotient or one more. |
| Arithmetic.Correction | pintos/src/lib/arithmetic.c:124 | The final comparison picks the true quotient of the two, and nothing in it wraps. |
| Arithmetic.LargeDivisor | pintos/src/lib/arithmetic.c:117-125 | For divisors of more than 32 bits DIVL does not trap and the corrected estimate is the quotient. |
| Arithmetic.UdivLarge | pintos/src/lib/arithmetic.c:113-126 | The estimate-and-correct branch returns the floor quotient for every divisor of more than 32 bits; its wrapping subtraction and product do not wrap. |
| Arithmetic.Udiv64 | pintos/src/lib/arithmetic.c:75-127 | Floor division for all 64-bit operands, computed from DIVL; a trap exactly for a zero divisor. |
| Arithmetic.Umod64 | pintos/src/lib/arithmetic.c:129-135 | The low 32 bits of the remainder. |
| Arithmetic.UmodExact | pintos/src/lib/arithmetic.c:129-135 | The result is the remainder for every dividend if and only if the divisor is at most 2 to the 32. |
| Arithmetic.UmodWrong | pintos/src/lib/arithmetic.c:129-135 | It is not the remainder of 2 to the 32 by 2 to the 33. |
| Arithmetic.Sdiv64 | pintos/src/lib/arithmetic.c:137-146 | Division truncated toward zero for all signed 64-bit operands; the one quotient that does not fit wraps around. |
| Arithmetic.Smod64 | pintos/src/lib/arithmetic.c:148-154 | The remainder with the sign of the dividend, cut to a signed 32-bit number. |
| Arithmetic.SmodExact | pintos/src/lib/arithmetic.c:148-154 | The result is the remainder for every dividend if and only if the divisor is between minus and plus 2 to the 31. |
| Arithmetic.SmodWrong | pintos/src/lib/arithmetic.c:148-154 | It is minus the remainder for 2 to the 31 by 2 to the 31 and one. |
| Sorting.MergeSorted | pintos/src/lib/kernel/list.c:382-407 | Merging two sorted runs gives a sorted run, for any strict weak order. |
| Sorting.MergeClass | pintos/src/lib/kernel/list.c:382-407 | Merging keeps elements that compare equal in order, those of the left run first. |
| Sorting.OneRunSorted | pintos/src/lib/kernel/list.c:447 | A list of at most one natural run is sorted. |
| Sorting.PassHalves | pintos/src/lib/kernel/list.c:428-445 | A pass leaves at most half the natural runs, rounded up: the measure that makes the sort stop. |
| Sorting.PassStable | pintos/src/lib/kernel/list.c:428-445 | A pass rearranges the elements and keeps equal ones in order. |
| Sorting.StableUnique | pintos/src/lib/kernel/list.c:409-448 | There is only one stable sorting of a sequence, so the result is determined. |
| Lists.List.Splice | pintos/src/lib/kernel/list.c:180-204 | The list becomes the one with the range moved in front of the place, linked both ways throughout. |
| Lists.List.FindEndOfRun | pintos/src/lib/kernel/list.c:360-380 | The element behind the longest nondecreasing run from the given one. |
| Lists.List.InplaceMerge | pintos/src/lib/kernel/list.c:382-407 | Moving nodes one by one leaves the list with the two sorted ranges merged and all else in place. |
| Lists.List.RunPass | pintos/src/lib/kernel/list.c:428-444 | One pass merges the natural runs two by two and counts the runs that come out. |
| Lists.List.Sort | pintos/src/lib/kernel/list.c:409-448 | Stops with the same nodes, consistently linked, sorted and with equal elements in their old order. |
| Lists.List.PushBack | pintos/src/lib/kernel/list.c:214-220 | The new element is the last one and the list is linked both ways. |
| Lists.List.PopFront | pintos/src/lib/kernel/list.c:265-273 | Takes the first element off and leaves the others linked both ways. |
| Synch.InvNext | pintos/src/threads/synch.c:73-168 | Every step of a semaphore keeps this: while anyone waits, the value is at most the number of woken threads that have not looked again. |
| Synch.NoLostWakeup | pintos/src/threads/synch.c:73-168 | That holds in every state of every run, so a positive value with waiters means that a woken thread is on its way. |
| Synch.ValueConserved | pintos/src/threads/synch.c:73-168 | In every run the value is the initial one plus the ups less the downs that got through. |
| Synch.UpWakesBest | pintos/src/threads/synch.c:146-168 | If waiters of one priority stand in order of arrival, the thread woken has the highest priority and arrived first among those that have it. |
| Synch.OrderKept | pintos/src/threads/synch.c:73-168 | Every step but a change of priority keeps waiters of one priority in order of arrival. |
| Synch.DonationOrder | pintos/src/threads/synch.c:95-116 | A change of priority keeps that order if and only if the thread stands right among the waiters that have its new priority already. |
| Synch.WakesEarliest | pintos/src/threads/synch.c:146-168 | In every run whose priority changes keep turns, each up wakes the earliest waiter of maximal priority. |
| Synch.DonationOvertakes | pintos/src/threads/synch.c:95-116 | A run with three threads in which a donation makes an up pass over an earlier waiter of the same priority. |
| Synch.LockInvNext | pintos/src/threads/synch.c:221-309 | Every step of a lock, the release in its two halves included, keeps the lock invariant. |
| Synch.MutualExclusion | pintos/src/threads/synch.c:221-309 | In every run the value plus the number of threads inside is 1, at most one thread is inside, and a holder means that it is the one and the value is 0. |
| Semaphores.Semaphore.Look | pintos/src/threads/synch.c:83-89 | One turn of the loop: the thread gets through and the value drops, or the value is 0 and the thread joins the end of the waiters. |
| Semaphores.Semaphore.TryDown | pintos/src/threads/synch.c:118-141 | Lowers a positive value or reports that it is 0; the waiters stay. |
| Semaphores.Semaphore.Up | pintos/src/threads/synch.c:146-168 | Raises the value and takes out the first of the waiters stably sorted by priority; the others stay in that order. No waiter has a higher priority than the one taken out. |
| HashTables.MaskIsRemainder | pintos/src/lib/kernel/hash.c:304-310 | Masking with a power of two less one is the remainder by it. |
| HashTables.TurnOffKeepsHigh | pintos/src/lib/kernel/hash.c:328-340 | Turning off the lowest bit makes a number smaller and keeps its highest bit, and gives 0 exactly for powers of two. |
| HashTables.BestBucketCnt | pintos/src/lib/kernel/hash.c:364-372 | The loop ends with a power of two, at least 4, that has fewer than four elements per bucket and, above 4, at least two. |
| HashTables.ChainDecides | pintos/src/lib/kernel/hash.c:312-326 | An element that compares equal can only be in the chain that the hash selects. |
| HashTables.HashTable.FindElem | pintos/src/lib/kernel/hash.c:312-326 | Finds the element of the whole table that compares equal exactly when there is one. |
| HashTables.HashTable.Find | pintos/src/lib/kernel/hash.c:129-135 | The element that compares equal, exactly when there is one. |
| HashTables.HashTable.Insert | pintos/src/lib/kernel/hash.c:94-110 | Adds the element exactly when none compares equal, and otherwise returns that one and adds nothing. |
| HashTables.HashTable.Replace | pintos/src/lib/kernel/hash.c:112-127 | The element takes the place of the one that compares equal, which is returned. |
| HashTables.HashTable.Delete | pintos/src/lib/kernel/hash.c:137-154 | Removes and returns the element that compares equal, exactly when there is one. |
| HashTables.HashTable.MoveChain | pintos/src/lib/kernel/hash.c:394-410 | Every element of an old chain ends up in the chain that its hash selects now. |
| HashTables.HashTable.Rehash | pintos/src/lib/kernel/hash.c:347-413 | The contents are the same whether or not memory could be had; if it could, there are fewer than four elements per bucket and, above four buckets, at least two; if not, the buckets stay. |
| HashTables.HashTable.constructor | pintos/src/lib/kernel/hash.c:22-42 | A new table is empty and has four buckets. |
| HeapSorts.HoleSinks | pintos/src/lib/stdlib.c:95-122 | Exchanging an element with its larger child moves the one violation of the heap order down. |
| HeapSorts.TopIsMax | pintos/src/lib/stdlib.c:146-151 | No element of a heap is above its first. |
| HeapSorts.Heapify | pintos/src/lib/stdlib.c:93-123 | Restores the heap order from the given place on, rearranges only elements from there to the count, and leaves all others. |
| HeapSorts.TopSettles | pintos/src/lib/stdlib.c:146-151 | Exchanging the top with the last element puts it where it belongs for good. |
| HeapSorts.BuildHeap | pintos/src/lib/stdlib.c:142-144 | Makes a heap of the same elements. |
| HeapSorts.Sort | pintos/src/lib/stdlib.c:125-152 | Sorts in place, with the same elements, for any total preorder. |
| HeapSorts.BinarySearch | pintos/src/lib/stdlib.c:172-207 | In a sorted array finds a match if and only if there is one. |
| PageAllocators.MapFits | pintos/src/threads/palloc.c:158-177 | The pages set aside at the start of a pool hold the bitmap of the pages that remain. |
| PageAllocators.FitIsFirst | pintos/src/threads/palloc.c:71-94 | No earlier run of that many pages is free, and a failed request means that no run is. |
| PageAllocators.PageAllocator.OtherPool | pintos/src/threads/palloc.c:179-189 | A run of one pool has no page of the other. |
| PageAllocators.PageAllocator.GetMultiple | pintos/src/threads/palloc.c:71-108 | The run is inside the pool and behind its bitmap, was free in all its pages, and is the first such run; used pages grow by exactly it; failure means no such run. |
| PageAllocators.PageAllocator.FreeMultiple | pintos/src/threads/palloc.c:123-149 | Exactly the pages given back become free again, in the pool they came from. |
| PageAllocators.Pool.constructor | pintos/src/threads/palloc.c:158-177 | A new pool has its bitmap in its first pages, exactly as many as the map of all its pages needs, which it never hands out, and all other pages free. |
| PageAllocators.OnePageSpare | pintos/src/threads/palloc.c:158-177 | Which can be one page more than the map of the remaining pages needs. |
| PageAllocators.PageAllocator.constructor | pintos/src/threads/palloc.c:47-69 | The two pools share the memory without overlap. The user pool gets half of it, up to the limit. |
| Mallocs.MallocInit | pintos/src/threads/malloc.c:70-85 | Seven descriptors, for 16 to 1024 bytes, with as many blocks as fit in a page behind the header. |
| Mallocs.BlocksDisjoint | pintos/src/threads/malloc.c:284-294 | Different blocks, of one arena or of two, do not overlap. |
| Mallocs.BlockInside | pintos/src/threads/malloc.c:284-294 | Every block lies within the pages of its arena, behind the header. |
| Mallocs.AddressRoundTrip | pintos/src/threads/malloc.c:266-282 | From the address of a block its arena and its number are found again. |
| Mallocs.ArenaKept | pintos/src/threads/malloc.c:241-253 | An arena is kept exactly as long as one of its blocks is live. |
| Mallocs.PageCntRoom | pintos/src/threads/malloc.c:105-120 | The pages taken for a big request have room for it if and only if the size is at most 2 to the 32 less 12; above that the sum wraps around and one page is taken. |
| Mallocs.PopKeeps | pintos/src/threads/malloc.c:148-153 | Handing out the first free block keeps free lists, counts and page ownership consistent. |
| Mallocs.CarveKeeps | pintos/src/threads/malloc.c:124-146 | A new arena, all of whose blocks are listed as free, keeps them consistent. |
| Mallocs.PushKeeps | pintos/src/threads/malloc.c:236-243 | Putting a live block back keeps the count of the arena equal to its listed blocks. |
| Mallocs.DropKeeps | pintos/src/threads/malloc.c:241-253 | Taking the blocks of an idle arena off the list and giving its page up leaves all other arenas consistent. |
| Mallocs.RemoveBlocks | pintos/src/threads/malloc.c:247-251 | Removing the blocks of an arena one by one leaves exactly the blocks of other arenas, in order. |
| Mallocs.Heap.MallocBig | pintos/src/threads/malloc.c:105-120 | A big request gets the first free run of pages, which becomes one more live block, or nothing changes because no run of pages is free or the page count wraps around to 0. |
| Mallocs.Heap.MallocSmall | pintos/src/threads/malloc.c:122-153 | One more live block of the descriptor, or nothing changes because the list is empty and no page is free. The first free block of the list is used, and a page only when there is none, the first free one. |
| Mallocs.Heap.Malloc | pintos/src/threads/malloc.c:87-154 | The new block was not live and overlaps no live block; the others stay live in their places; it has room for the request unless the size wrapped around; failure only for 0 bytes, for the sizes from 2 to the 32 less 4107 to 2 to the 32 less 12, whose page count wraps around to 0, or for lack of pages. Up to 1024 bytes the block is of the least size that fits, from the free list of that size without touching any page while there is one, and otherwise from the first free page; failure then means that the list was empty, too. Above that it gets the first free run of pages, not one page too many. |
| Mallocs.Heap.FreeSmall | pintos/src/threads/malloc.c:227-256 | Exactly the freed block stops being live, the bytes of the others stay, and the page goes back exactly with the arena. |
| Mallocs.Heap.FreeBig | pintos/src/threads/malloc.c:257-262 | Exactly the pages of the block go back; all other blocks keep their bytes. |
| Mallocs.Heap.Free | pintos/src/threads/malloc.c:216-264 | Over every use: one block less is live, all others keep place and bytes, and a null pointer does nothing. |
| Mallocs.Heap.Realloc | pintos/src/threads/malloc.c:188-214 | The new block starts with the bytes the old one held, up to the smaller of the new size and the old capacity, and all other blocks keep theirs, whenever that copy fits in the new block; it fits if and only if the size is at most 2 to the 32 less 12 or the old block no larger than a page; on failure nothing changes. With size 0 the block is freed and all others keep their bytes. |
| Mallocs.OverrunReached | pintos/src/threads/malloc.c:87-154 | Four requests and a free, each served first fit from an empty heap, lead through sound states to a block of one page in front of a block of one page and one of two. |
| Mallocs.MoveOverruns | pintos/src/threads/malloc.c:188-214 | Otherwise another block can be overwritten: in the state reached, moving the block of two pages to the first changes a byte of the block between. |
| Tokenizers.SpansExact | pintos/src/lib/string.c:234-275 | The tokens found are exactly the maximal stretches without delimiters. |
| Tokenizers.SpansOrdered | pintos/src/lib/string.c:234-275 | They come in the order in which they stand, without overlap. |
| Tokenizers.StrtokR | pintos/src/lib/string.c:234-275 | Each call yields the next token and changes nothing but the byte behind it, which becomes null; none is left exactly when there are no more tokens. |
| ArgStacks.CountWords | pintos/src/userprog/process.c:635-643 | The number of words, counted on a copy. |
| ArgStacks.PushStrings | pintos/src/userprog/process.c:646-654 | All words, each with its terminator, stand one below the other at the top of the page. |
| ArgStacks.PushPointers | pintos/src/userprog/process.c:667-672 | The pointers to the words stand in ascending order below. |
| ArgStacks.Assembled | pintos/src/userprog/process.c:656-684 | From the words pushed below the strings a program reads the argument count, vector and strings back, all of them inside the page. |
| ArgStacks.SetupStack | pintos/src/userprog/process.c:635-690 | For every command line whose layout fits in a page, what `main` reads from the stack pointer on are exactly the words of the command line, with a null pointer behind them, word aligned and inside the page. |

## Left out

- FreeMaps.FreeMap.AllocateOne: writing the free map to its file is taken to succeed; what a failed write does is in FreeMaps.FreeMap.Allocate.
- Inodes.FileSystem.AppendOne: takes the write of the free map to succeed, because it uses that allocation.
- Inodes.FileSystem.AppendAll: takes the write of the free map to succeed, for the same reason.
- Inodes.FileSystem.Expand: takes the write of the free map to succeed, for the same reason.
- Inodes.FileSystem.WriteAt: the end must be within the 16,576 sectors of the index. When sectors run out at a data sector, the growth links a sector number left over in memory; the result `Unbacked` says exactly when, and nothing is said about where the bytes go then.
- Inodes.FileSystem.GrowTo: says nothing about the contents of the file in that case.
- Inodes.FileSystem.Create: says nothing about the contents of the new file in that case, and the length must be within the index.
- Directories.Directory.Add: says nothing about any file when the growth of the directory links such sectors (`Unknown`), and the new entry must be within the index.
- Mallocs.Heap.Realloc: when the copy overruns the new block, nothing is said about memory; arena headers it may hit are not bytes of the model.
- Mallocs.Heap.Malloc: arena headers and free-list links are fields of the model and not bytes of the pages they occupy.
- Lists.List.Sort: the order must not change while the list is sorted; in the kernel it is read from the threads.
- Semaphores.Semaphore.Up: thread priorities are a parameter; how donation computes them is left out.
- ArgStacks.SetupStack: requires that the layout fits in the page; what happens below the page is not modelled.
- Loaders.LoadSegment: assumes that no page of the process has been loaded yet, as is so while a program is being loaded.
- Page tables: allocating the second-level table is taken to succeed.
- Deallocation of removed inodes: its loops do not follow the structure that growth builds.
- Write-behind and read-ahead threads and the locks of cache, frame table and swap: cache and paging operations are atomic steps, and one write-behind sweep is such a step.
- Persistence of the free map through its own file.
- Memory-mapped files, and files that change while a program is loaded from them.
- Priority donation and restoration, and condition variables: the lists involved compare elements through a different link field than they are built with.
- The reference counts of cache entries and of open inodes.
- Advanced scheduler, thread switching, interrupts, device drivers and boot code.
- System calls, path names, process exit and wait, console output and formatted printing.
- The remaining list and hash operations (ordered insertion, reversal, uniqueness, iteration, byte hashing), string functions other than those used here, and `calloc`.
