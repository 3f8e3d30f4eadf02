# TNU in Dafny

TNU is a small x86-64 operating system written in C, with Python tools that build its disk images.
This project models the parts of it that own a data structure or an algorithm of their own, and
proves what they promise. Loops and state changes are methods proved against specifications; what
the specifications mean is proved about them as lemmas. `dafny verify dfyconfig.toml` checks all of
it.

| files | what they model |
|---|---|
| `KernelHeap`, `KernelHeapRuns` | the kernel heap: block headers inside one byte array, first fit, split, coalesce, reallocation |
| `Paths`, `PathLaws` | the path normaliser, what each piece of a path does, and when it is idempotent |
| `VfsTree`, `Vfs`, `VfsData`, `VfsFiles` | the in-memory file system: sibling-linked nodes refining a map from paths to files, copy-on-write contents |
| `VfsLaws`, `VfsInit` | what each operation means path by path; what a fresh file system holds |
| `TfsImage`, `TfsMount` | the TFS image writer and the mount loop |
| `TfsTrees`, `TfsRoundTrip`, `TfsLimits`, `TfsBoot` | directory trees packed and mounted, which of their files survive, and a system that boots from them |
| `PageTables`, `UserHeap` | identity-mapping page tables, the user break, and what program start maps |
| `FrameAllocator` | physical frames |
| `Ccm`, `Ccmp`, `CcmLaws` | CCM as RFC 3610 defines it, the wireless driver's loops, sealed frames and their packet numbers; that every block counts |
| `FirmwareTlv`, `FirmwareLaws` | the firmware record walk and its sorted section tables; that written records read back |
| `Sha1`, `Sha1Laws`, `Sha1Example` | SHA-1, HMAC and PBKDF2, byte by byte, and a known digest |
| `NumberText`, `UserDb`, `UserTable`, `UserPasswords` | numbers as text, the user database with its two files, and what its password hash tells apart |
| `Fat32`, `Fat32Laws` | the FAT32 volume of the installation image, and a reader of it |
| `Calendar`, `ClockRegisters`, `Checksum` | time zone shifts and epochs, reading the clock, the Internet checksum |
| `Bytes`, `Basics`, `Wrappers` | little-endian words, exclusive or, buffers; word sizes; optional values |

## Where the code does something else than one would expect

Each of these is a lemma with a concrete input or an exact condition.

- `krealloc` that shrinks in place does not merge what it cuts off with a free successor
  (`ShrinkKeepsMerged`, `ShrinkFragments`).
- `vfs_normalize` is not idempotent when its text fills the 255 characters without a first slash,
  which needs a buffer of more than 256 bytes and a directory that is not absolute
  (`NormalizeIdempotent`, `OverlongCall`); no call in the kernel is of that kind (`NeverOverlong`). It
  refuses a single name that would fit the buffer exactly (`FitsExactly`, `RefusedThoughFitting`).
- `mktfs.py` packs every path below 256 bytes, but the kernel keeps 63 characters of a name and 32
  levels. A file below 32 directories is never found (`TooManyLevels`). Files whose cut paths agree
  become one, which holds what the last of them was packed with (`TwinNames`); below a directory whose
  cut path was a file's before, nothing is mounted (`PackedFilesMount`).
- `vmm_map_range_identity` accepts some ranges whose end wraps around and then maps only part of
  them (`RangeCoverage`, `WrappingRangeFits`).
- `ccmp_cbc_mac` follows RFC 3610 only for additional data of 1 to 65279 bytes
  (`FedIsAuthenticated`); the driver never passes more than 22.
- `fat32_mkfs` lets images from 32 MiB on pass its first test, but succeeds only from 525258 sectors
  (about 256.5 MiB) on, and its sector count wraps at 2 TiB: fewer than 34 sectors behind a multiple
  of that, it accepts a volume without room for its tables (`MkfsAccepts`, `MkfsWraps`).
- `Fat32Image` lets images from 65536 sectors on pass its first test, but needs 66599
  (`SmallestVolume`). Sizing the tables in two passes leaves sectors over, so that a reader which
  counts clusters from the boot sector may find more clusters than the tables have entries. This
  happens exactly above 130 sectors per table sector plus 30, and always from 522111 sectors on
  (`ReadableVolumes`). Every volume that the build can ask for is such a case (`BuildVolumes`); of the
  smallest, 64 MiB, the tables end two entries short (`DefaultVolume`).
- Users beyond the 2048-byte buffers are dropped without an error when the files are rewritten
  (`TableSurvives`).
- A passwd line of 256 characters or more is cut at 255 and glued to the next one, whose user is lost;
  only the last line may have exactly 256 (`PasswdRoundTrip`, `LongLineLosesUser`, `CarolLost`).
- `user_add` compares whole names with stored ones, which are cut to 31 characters. Names that agree
  in these are both added and share a stored name (`AddKeepsDistinct`, `TwoNames`); only the
  first of such users can have a password, and keeps it over a restart (`RunKeeps`, `RestartKeeps`). A user without a
  password whose name was cut gets another salt on restart, which nothing uses (`TableSurvives`).
- `rtc_read_time` in 12-hour mode takes noon for midnight and midnight for noon (`ReadShown`).
- `inet_checksum` loses carries on buffers of more than 131074 bytes (`InetChecksum`).
- A frame freed while 65536 others wait on the free stack is lost and stays counted as allocated
  (`FreeFrame`).

## Model

| member | source | states |
|---|---|---|
| KernelHeap.Heap.constructor | kernel/mm/heap.c:36-46 | heap_init leaves one free block over the whole array, its header as the list says, and nobody's bytes live |
| KernelHeap.Align16 | kernel/mm/heap.c:26-29 | the size rounded up to 16, modulo 2^64: 0 exactly for 0 and for sizes that wrap |
| KernelHeap.Heap.SplitBlock | kernel/mm/heap.c:48-65 | the headers written for a split make the list the old one with block i cut; every live allocation keeps its address and bytes, the cut one its prefix |
| KernelHeap.Heap.JoinSuccessor | kernel/mm/heap.c:67-79 | the free successor disappears into the block; no live bytes change |
| KernelHeap.Heap.Coalesce | kernel/mm/heap.c:67-83 | the recursion terminates and fuses the whole run of free blocks around the freed one into one block, with no live bytes changed |
| KernelHeap.Heap.FindFit | kernel/mm/heap.c:92-106 | the search returns the first free block that is large enough, or none when there is none |
| KernelHeap.Heap.Kmalloc | kernel/mm/heap.c:85-108 | fails exactly when the rounded size is 0 or no free block holds it, changing nothing; otherwise a fresh 16-aligned allocation of at least the size and less than header and 32 bytes more, what the block had beyond that being a free block on the list behind it, with every other live allocation's bytes kept |
| KernelHeap.Heap.Kfree | kernel/mm/heap.c:110-125 | null pointers, pointers outside the heap and those behind the first header without a magic number in front are ignored; otherwise the block and its free neighbours become one free block and no other allocation changes |
| KernelHeap.Heap.Kcalloc | kernel/mm/heap.c:127-138 | null exactly when count times size wraps 64 bits, the rounded size is 0 or no free block holds it; otherwise an allocation, cut to size like any, whose first count*size bytes are zero, all others unchanged |
| KernelHeap.Overflow | kernel/mm/heap.c:129-131 | the division test of kcalloc is true exactly when the product exceeds the limit |
| KernelHeap.Heap.Krealloc | kernel/mm/heap.c:140-167 | frees, shrinks in place or moves; fails exactly when no free block fits, changing nothing; the common prefix of old and new size is kept, every other allocation too; a move is an allocation and the release of the old block; what comes back is cut to size |
| KernelHeap.Heap.Relocate | kernel/mm/heap.c:156-166 | allocate a block cut to size, copy the common prefix, free the old block |
| KernelHeap.Heap.Store | kernel/mm/heap.c:12-20 | an owner's store changes its own bytes only and no header |
| KernelHeap.CutLinked | kernel/mm/heap.c:48-65 | the stores of a split keep every header equal to what the list demands: sizes, flags, both links |
| KernelHeap.JoinLinked | kernel/mm/heap.c:67-83 | the stores of a join keep the list linked both ways |
| KernelHeap.FuseJoin | kernel/mm/heap.c:67-83 | joining pairwise leftwards is the same as fusing the whole run at once |
| KernelHeap.MallocServes | kernel/mm/heap.c:48-106 | the block found is taken; if it has room for another header and 32 bytes it is cut to the size and the rest stays free behind it, otherwise it is handed out whole |
| KernelHeapRuns.ThreeServed | kernel/mm/heap.c:85-108 | from boot, three small allocations are served one behind the other, and the rest of the heap stays free |
| KernelHeapRuns.LiveAllocationsApart | kernel/mm/heap.c:12-20 | in any linked heap two live allocations share no byte: a header lies between them |
| KernelHeapRuns.RunKeeps | kernel/mm/heap.c:48-167 | any run of allocations, releases and growing reallocations keeps the heap tiled and never leaves two neighbouring free blocks |
| KernelHeapRuns.RunRestoresHeap | kernel/mm/heap.c:67-167 | after any such run, released in any order, once nothing is live the heap is the single initial block |
| KernelHeapRuns.Serve | kernel/mm/heap.c:85-167 | any calls of an owner on the heap in memory, growing reallocations included: its pointers are exactly the live allocations, and once all of them are null again the heap is the single initial block |
| KernelHeapRuns.ShrinkKeepsMerged | kernel/mm/heap.c:150-154 | shrinking in place keeps free neighbours merged exactly when no cut is made in front of a free block |
| KernelHeapRuns.ShrinkFragments | kernel/mm/heap.c:150-154 | a concrete run with a shrink after which everything is free but two blocks remain |
| Paths.ScanComponent | kernel/fs/vfs.c:76-84 | the scan takes the next component, cut to the name limit, and stops behind it |
| Paths.Normalize | kernel/fs/vfs.c:52-115 | vfs_normalize computes the canonical spelling of the stack fold, or fails exactly when there is none or it does not fit |
| Paths.RenderInto | kernel/fs/vfs.c:100-114 | the output loop writes the spelling if it fits the buffer by the loop's own count |
| PathLaws.FitsExactly | kernel/fs/vfs.c:100-114 | that count refuses no output that fits with its terminator, except a single name that would fit exactly |
| PathLaws.RefusedThoughFitting | kernel/fs/vfs.c:104-106 | such a refusal: a buffer of three bytes for /a |
| Paths.CanonicalValid | kernel/fs/vfs.c:68-98 | an output has no empty, dot or dot-dot component, none too long, and at most 32 |
| PathLaws.NormalizeIdempotent | kernel/fs/vfs.c:61-114 | normalizing an output again, from any directory, changes nothing, except exactly when the text to split fills its buffer and is a canonical spelling without the first slash |
| PathLaws.NeverOverlong | kernel/fs/vfs.c:61-114 | that never happens with a buffer of at most 256 bytes, as all of the kernel's are, nor with an absolute path, nor in an absolute directory or none |
| PathLaws.OverlongCall | kernel/fs/vfs.c:61-66 | a call where it happens: a directory of four names without its slash, and a buffer of 257 bytes |
| PathLaws.NextPiece | kernel/fs/vfs.c:68-98 | reading a path piece by piece is walking it: nothing and a dot stay, two dots go up but not beyond the root, a name goes down, cut to 63 characters and to 32 levels |
| PathLaws.FromRoot | kernel/fs/vfs.c:61-67 | the walk starts at the root, for absolute paths and without a directory |
| Paths.ComponentsConcat | kernel/fs/vfs.c:68-84 | the components of two texts joined by a slash are those of the first followed by those of the second |
| Paths.FoldConcat | kernel/fs/vfs.c:85-98 | folding a concatenation is folding the second part from the first part's stack |
| Paths.RelativeContinues | kernel/fs/vfs.c:61-98 | a relative path that fits with its directory continues the fold from the directory's stack |
| Paths.ComponentsOfSpell | kernel/fs/vfs.c:68-114 | splitting the spelling of valid names gives the names back |
| VfsTree.ResolveParent | kernel/fs/vfs.c:35-50 | parent link, name and directory kind of a reached node agree with the path that reaches it |
| VfsTree.ResolvePrefix | kernel/fs/vfs.c:142-167 | the paths that reach a node are closed under prefixes |
| VfsTree.ResolveInjective | kernel/fs/vfs.c:35-50 | no node is reached by two paths |
| VfsTree.AttachTree | kernel/fs/vfs.c:17-40 | linking a fresh node in front of the siblings keeps the tree's shape, names unique among siblings |
| VfsTree.AttachResolve | kernel/fs/vfs.c:17-40 | after linking, exactly one more path resolves, to the new node; all others resolve as before |
| VfsTree.BypassTree | kernel/fs/vfs.c:262-283 | unlinking a childless child keeps the tree's shape |
| VfsTree.BypassResolve | kernel/fs/vfs.c:262-283 | after unlinking, exactly that path no longer resolves; all others resolve as before |
| Vfs.ViewWellFormed | kernel/fs/vfs.c:17-50 | the map a node pool stands for is rooted, prefix-closed, and has directories above every entry |
| VfsFiles.FileSystem.constructor | kernel/fs/vfs.c:117-135 | vfs_init leaves exactly the root and its ten directories |
| VfsFiles.FileSystem.FindChild | kernel/fs/vfs.c:42-50 | walking the sibling links finds the child with the name, if there is one |
| VfsFiles.FileSystem.Lookup | kernel/fs/vfs.c:142-167 | the node that the canonical components reach, or none |
| VfsFiles.FileSystem.Walk | kernel/fs/vfs.c:146-167 | the walk over a canonical spelling reaches what its names resolve to |
| VfsFiles.FileSystem.ParentAndName | kernel/fs/vfs.c:169-192 | parent directory and last component, failing exactly for the root and unreachable parents |
| VfsFiles.FileSystem.FindSlot | kernel/fs/vfs.c:194-204 | the error codes before an allocation: no parent directory, or the path exists |
| VfsFiles.FileSystem.MakeNode | kernel/fs/vfs.c:194-230 | one new path with the given kind and attributes, or an error code and no change at all |
| VfsFiles.FileSystem.Mkdir | kernel/fs/vfs.c:194-211 | vfs_mkdir acts on the path map as specified |
| VfsFiles.FileSystem.CreateFile | kernel/fs/vfs.c:213-230 | vfs_create_file acts on the path map as specified |
| VfsFiles.FileSystem.FindLink | kernel/fs/vfs.c:269-281 | the link walk finds the child with the name and the sibling before it |
| VfsFiles.FileSystem.RemoveLink | kernel/fs/vfs.c:269-281 | the pointer updates remove one child from the list and touch its parent |
| VfsFiles.FileSystem.Unlink | kernel/fs/vfs.c:262-283 | one childless path disappears and its parent is touched; a missing path or one with children gives an error and no change |
| VfsFiles.FileSystem.ReadNode | kernel/fs/vfs.c:327-341 | a read returns of the contents the bytes from the offset on, as many as are asked for and there: stated byte by byte |
| VfsFiles.FileSystem.WriteNode | kernel/fs/vfs.c:343-369 | contents become the old ones zero-extended to the offset with the buffer spliced in; other nodes and boot images keep their bytes; without memory nothing changes |
| VfsFiles.FileSystem.WriteThenRead | kernel/fs/vfs.c:327-369 | reading where something was written gives it back |
| VfsFiles.FileSystem.Relocate | kernel/fs/vfs.c:350-361 | a larger owned buffer holds the old bytes and then zeros |
| VfsFiles.FileSystem.Patch | kernel/fs/vfs.c:362-369 | the final copy splices the buffer into the node's own storage |
| VfsFiles.FileSystem.WriteFile | kernel/fs/vfs.c:232-260 | the file holds exactly the new data, created if need be; every other path is as before; the error codes as specified |
| VfsFiles.FileSystem.AddImage | kernel/fs/tfs.c:401-406 | a boot image becomes storage that nodes may only borrow |
| VfsData.SpliceAt | kernel/fs/vfs.c:343-367 | what a write leaves, byte by byte: the buffer where it was written, the old byte elsewhere, zero in a gap, and the longer of both lengths |
| VfsData.SliceAt | kernel/fs/vfs.c:327-341 | what a read gives, byte by byte |
| VfsData.ReadAfterWrite | kernel/fs/vfs.c:327-369 | the slice at a spliced place is the buffer |
| VfsData.ReadInTwo | kernel/fs/vfs.c:327-341 | two reads in a row give what one of both lengths gives |
| VfsData.ReplacedView | kernel/fs/vfs.c:232-260 | giving one node new data changes exactly its entry of the path map |
| VfsLaws.MakeCodes | kernel/fs/vfs.c:194-230 | when a creation succeeds and when it gives which error code |
| VfsLaws.Made | kernel/fs/vfs.c:17-33 | the new path has the kind, mode, owner and group asked for, no bytes, and a time later than all before; every other path is as it was |
| VfsLaws.Unlinked | kernel/fs/vfs.c:262-283 | when a removal succeeds and when it gives which error code; only the path goes, and only the directory above shows a new time |
| VfsLaws.MakeThenUnlink | kernel/fs/vfs.c:194-283 | creating a path and removing it again leaves what there was, but for the time of the directory above |
| VfsLaws.Written | kernel/fs/vfs.c:232-260 | when a whole write succeeds, what the path then holds, a created one as a plain file with mode 0644, and that all others are as before |
| TfsTrees.SortedByDepth | tools/mktfs.py:72-73 | sorting collected paths by their number of slashes puts whatever is further up first, for names and depths of any size |
| TfsTrees.CompsAre | kernel/fs/vfs.c:76-84 | the kernel's names of a packed path are the tree's, each cut to 63 characters |
| TfsTrees.PlaceIs | kernel/fs/vfs.c:68-98 | a packed path leads to its cut names exactly if there are at most 32 of them, and nowhere otherwise |
| TfsLimits.OneFileCollected | tools/mktfs.py:34-73 | a tree of one file in the root is collected, and it fits |
| TfsImage.Align8 | tools/mktfs.py:25-26 | the least multiple of eight that is not smaller |
| TfsImage.Pack | tools/mktfs.py:76-126 | the packing loop produces header, table, padding and payload of the specified image, failing exactly when a path is too long |
| TfsImage.EntryRoundTrip | tools/mktfs.py:106-120 | an entry packed into bytes reads back field by field |
| TfsImage.EntryLayout | tools/mktfs.py:106-120 | where each field of a packed entry stands, byte by byte |
| TfsImage.HeaderRoundTrip | tools/mktfs.py:122-126 | magic, version, entry count and both offsets read back from the image |
| TfsImage.ImageEntry | tools/mktfs.py:93-126 | every packed entry reads back from the finished image as it was packed |
| TfsImage.ImageExtent | tools/mktfs.py:93-101 | a file's extent is 8-aligned, inside the image, and holds exactly its bytes |
| TfsImage.ExtentsDisjoint | tools/mktfs.py:93-101 | the extents of two files do not overlap |
| TfsMount.FillNode | kernel/fs/tfs.c:364-390 | a file entry's owner, mode, time and borrowed bytes go to the node its path reaches, and nothing else changes |
| TfsMount.MountOne | kernel/fs/tfs.c:351-392 | one entry's effect on the path map; false exactly when its bytes lie outside the image, for sums that do not wrap |
| TfsMount.MountEntries | kernel/fs/tfs.c:351-392 | the loop over the entries is the run of single entries, and what came before the first bad one stays mounted |
| TfsMount.MountImage | kernel/fs/tfs.c:330-406 | zero exactly when the header holds and every file's bytes lie inside the image; mounted is the run up to the first bad entry; a bad header changes nothing |
| TfsMount.RunSucceeds | kernel/fs/tfs.c:351-392 | the loop goes through exactly when every file with a path has its bytes inside the image, whatever is mounted already and whether or not the nodes suffice |
| TfsRoundTrip.PackedFilesMount | tools/mktfs.py:34-126 | any collected tree packed and mounted: a packed file is found under its path with exactly its bytes, twelve mode bits, owner, group and time if and only if its path has at most 32 levels and is not there before, the first entry known under the cut path is a file to which directories lead and which had room, and the last file known under it does not differ; in any case what is found holds what that last file was packed with |
| TfsRoundTrip.PackedDirectoriesMount | tools/mktfs.py:34-126 | a packed directory is found with exactly its twelve mode bits, owner and group under the like conditions, if no file is known under its cut path |
| TfsRoundTrip.FittingTreesMount | tools/mktfs.py:34-126 | if all names and paths fit and none is there twice or before, that is exactly when the entries before it left a node in the pool |
| TfsRoundTrip.SmallTreesMount | kernel/fs/tfs.c:330-406 | of such a tree of at most 1013 entries every file survives on a freshly initialised file system |
| TfsLimits.TwinNames | kernel/fs/tfs.c:369-390 | two files whose names of 64 characters agree in the first 63: the path of the first leads to the contents of the second |
| TfsLimits.TooManyLevels | kernel/fs/vfs.c:93-95 | a file below 32 directories, with a path of 66 characters, is packed, and its path leads nowhere |
| TfsRoundTrip.ImagesFit | tools/mktfs.py:77-126 | no sum of a packed image's fields wraps, so that every packed image is one that MountImage is specified for |
| TfsBoot.PackMountRead | kernel/fs/tfs.c:330-406 | packing, initialising the file system, mounting, looking up and reading in one run: the mount succeeds, and the file is read back as packed exactly when it survives |
| PageTables.AddressSpace.constructor | kernel/arch/x86_64/boot/start.S:55-76 | the boot code's tables map exactly the first gigabyte |
| PageTables.PackedFieldwise | kernel/mm/vmm.c:54-58 | or-ing flags into a word with an aligned address leaves the address field and ors the flags |
| PageTables.WalkIsIdentity | kernel/mm/vmm.c:60-108 | whatever the tables went through, an address that translates reaches itself, in the lower half, writable |
| PageTables.GrantsMeans | kernel/mm/vmm.c:60-108 | a granted address lies in its own 2 MiB page, writable, with the flags asked for, and open to user code on every level when they ask for that |
| PageTables.RightsMean | kernel/mm/vmm.c:29-52 | a translation has a right exactly when all three entries on its way have it |
| PageTables.LeafSetMeans | kernel/mm/vmm.c:97-106 | a page mapped for the first time has exactly present, writable, huge and the flags asked for; one mapped before gains exactly these flags |
| PageTables.SteadyMeans | kernel/mm/vmm.c:71-95 | a translation that a call only passes keeps place and leaf, and gains the user bit at most, and only when asked for |
| PageTables.LinkedOnce | kernel/mm/vmm.c:29-47 | no second- or third-level table is linked from two slots |
| PageTables.AddressSpace.RootTable | kernel/mm/vmm.c:71-83 | the second-level table of a root slot, fresh and empty or the old one; fails exactly when missing with the pool used up; all translations kept |
| PageTables.AddressSpace.MiddleTable | kernel/mm/vmm.c:85-95 | the same for the third level |
| PageTables.AddressSpace.SetLeaf | kernel/mm/vmm.c:97-106 | one leaf is set or gains flags; every other translation is exactly as before |
| PageTables.AddressSpace.MapHuge | kernel/mm/vmm.c:60-108 | succeeds exactly for a lower-half page whose missing tables the pools can supply; then the page is mapped to itself with exactly the flags it had and those asked for; in every outcome no mapping is lost or weakened, no other leaf changes, and rights elsewhere grow at most by the user bit |
| PageTables.AddressSpace.MapPage | kernel/mm/vmm.c:115-121 | a page asked to be mapped elsewhere is refused without change; otherwise the page is mapped, and fails, exactly as a single page does |
| PageTables.AddressSpace.MapRange | kernel/mm/vmm.c:123-142 | success maps every page from start to rounded end with exactly the old and the wanted flags and leaves all others alone; failure on a range that fits means a pool is used up; the bytes asked for are all mapped exactly when rounding the end does not wrap |
| PageTables.RangeCoverage | kernel/mm/vmm.c:129-133 | of accepted ranges exactly those whose rounded end does not wrap are covered completely |
| PageTables.RangeAccepted | kernel/mm/vmm.c:129-133 | of ranges that do not wrap exactly those up to the limit are accepted, and the end is the first page border behind them |
| PageTables.WrappingRangeFits | kernel/mm/vmm.c:129-133 | a wrapping range that is accepted and maps one page only |
| UserHeap.Process.SysBrk | kernel/core/syscall.c:1181-1220 | the answer is the break, which moves to any place asked for in its window unless growth runs out of tables; floor and limit hold and all below the break is mapped for the user |
| UserHeap.Process.Grow | kernel/core/syscall.c:1208-1217 | the pages up to the new break are mapped; it cannot fail in a window that is mapped already |
| UserHeap.Process.Exec | kernel/core/syscall.c:1021-1096 | program start sets an empty heap from the end of the boot modules to the stack; on success every byte of the program, of the whole window and of the stack is mapped for the user, and the program lies between 64 MiB and the heap; it refuses exactly programs that do not fit there, or for want of tables, and then leaves the break alone |
| UserHeap.StackWindow | kernel/core/syscall.c:1021-1031 | the higher stack exactly when memory reaches 16 MiB above it |
| UserHeap.HeapBaseIs | kernel/core/syscall.c:1032-1037 | the heap starts at the first page border that is behind the modules and not below 128 MiB |
| UserHeap.WindowStart | kernel/core/syscall.c:1032-1091 | rounding up the end of the program never passes the start of the heap window |
| UserHeap.Run | kernel/core/syscall.c:1181-1220 | from boot through any sequence of mapping, break and program-start calls: identity translation, the first gigabyte mapped, and the break safe |
| FrameAllocator.Pool.AllocFrame | kernel/mm/pmm.c:86-106 | the frame freed last or else the next one of the pool, which nobody holds; none exactly when freed frames and pool are used up; the partition of the pool and both counters are kept |
| FrameAllocator.Pool.FreeFrame | kernel/mm/pmm.c:108-121 | a held frame goes to the stack, or is dropped when that is full and stays counted as allocated; null and unaligned frames change nothing; the partition and both counters are kept |
| FrameAllocator.Popped | kernel/mm/pmm.c:88-95 | taking the last freed frame keeps the pool partitioned |
| FrameAllocator.Advanced | kernel/mm/pmm.c:96-105 | taking the frame at the cursor keeps the pool partitioned |
| Ccm.CbcMac | kernel/drivers/net/iwlwifi.c:1475-1526 | the in-place loops compute the CBC-MAC chain over first block, framed additional data and message |
| Ccm.AbsorbRest | kernel/drivers/net/iwlwifi.c:1499-1525 | the loop over full and zero-filled blocks adds exactly the remaining blocks to the chain |
| Ccm.FedIsAuthenticated | kernel/drivers/net/iwlwifi.c:1475-1511 | what the driver authenticates is what section 2.2 of RFC 3610 asks for exactly when the additional data is non-empty and shorter than 65280 bytes |
| Ccm.CryptPayload | kernel/drivers/net/iwlwifi.c:1528-1549 | the counter loop masks every byte with its key stream byte, also when the 16-bit counter wraps, and touches nothing else |
| Ccm.WrapCounter | kernel/drivers/net/iwlwifi.c:1432-1439 | a counter block depends on the low 16 bits of the counter only |
| Ccm.MaskedUndo | kernel/drivers/net/iwlwifi.c:1528-1549 | masking twice gives the text back |
| CcmLaws.BlockCounts | kernel/drivers/net/iwlwifi.c:1497-1526 | for every cipher that is injective under each key, a chain in which one block is exchanged ends in another value |
| CcmLaws.PayloadCounts | kernel/drivers/net/iwlwifi.c:1513-1525 | two payloads of a length that differ in one block only have different chain values |
| CcmLaws.AadCounts | kernel/drivers/net/iwlwifi.c:1491-1511 | and so have two additional data that differ in one block only |
| CcmLaws.NonceCounts | kernel/drivers/net/iwlwifi.c:1480-1489 | and so has the same payload under another nonce |
| CcmLaws.CountersAgree | kernel/drivers/net/iwlwifi.c:1432-1439 | counter blocks agree exactly when nonce and counter modulo 65536 do |
| Ccmp.DriverIsCcm | kernel/drivers/net/iwlwifi.c:1551-1592 | ciphertext and masked authentication value are CCM with M = 8 and L = 2 |
| CcmLaws.SealedHeader | kernel/drivers/net/iwlwifi.c:1558-1575 | a sealed frame keeps its header but for the protected bit, and carries the packet number behind it, digit by digit |
| CcmLaws.SealedPayload | kernel/drivers/net/iwlwifi.c:1528-1588 | payload byte by byte: masked with the cipher's output for the block that names sender, packet number and place |
| CcmLaws.SealedTag | kernel/drivers/net/iwlwifi.c:1475-1592 | the last eight bytes: the end of the chain that starts with flags, sender, packet number and length, masked with the block of counter zero |
| CcmLaws.AadCovers | kernel/drivers/net/iwlwifi.c:1461-1473 | the additional data agree exactly when kind, unmasked flag bits, all three addresses and the fragment number do |
| Ccmp.OpenUndoesSeal | kernel/drivers/net/iwlwifi.c:1594-1637 | for every key, cipher, frame and packet number, opening the sealed frame gives the payload |
| Ccmp.SealUndoesOpen | kernel/drivers/net/iwlwifi.c:1551-1637 | a frame that opens is the sealed form of its payload exactly when its protected bit and two header bytes are as sealing sets them |
| Ccmp.HeaderDigits | kernel/drivers/net/iwlwifi.c:1454-1459 | the packet number read from the header has the digits that were written |
| Ccmp.NoncesAgree | kernel/drivers/net/iwlwifi.c:1441-1452 | two nonces agree exactly when sender and low 48 bits of the packet number do |
| Ccmp.NoncesDistinct | kernel/drivers/net/iwlwifi.c:1551-1580 | since the last counter reset no two of the frames sealed within 2^48 of each other share a nonce |
| Ccmp.NonceReturns | kernel/drivers/net/iwlwifi.c:1441-1452 | after exactly 2^48 frames the same nonce comes back |
| Ccmp.Station.EncryptFrame | kernel/drivers/net/iwlwifi.c:1551-1592 | refuses without using a number, or writes exactly the sealed frame and nothing behind it and counts one |
| Ccmp.Station.DecryptPayload | kernel/drivers/net/iwlwifi.c:1594-1637 | accepts exactly the authentic frames that fit, and then returns their payload |
| Ccmp.Station.DeriveKey | kernel/drivers/net/iwlwifi.c:1315-1317 | a derived key is ready at once, and the packet numbers go on |
| Ccmp.Station.ResetCounter | kernel/drivers/net/iwlwifi.c:4318-4321 | once the key is installed, the packet numbers start again |
| FirmwareTlv.TlvsInImage | kernel/drivers/net/iwlwifi.c:1827-1845 | every record that is handled lies inside the image |
| FirmwareTlv.InsertInPlace | kernel/drivers/net/iwlwifi.c:1942-1962 | the shifting loop in the array is insertion behind all sections not loaded above the new one |
| FirmwareTlv.StableSort | kernel/drivers/net/iwlwifi.c:1942-1962 | inserting one after the other sorts by load offset and keeps the order among equal offsets |
| FirmwareTlv.StableSortUnique | kernel/drivers/net/iwlwifi.c:1942-1962 | no other sequence is sorted and stable |
| FirmwareTlv.SectionTable.Add | kernel/drivers/net/iwlwifi.c:1888-1902 | a section is recorded unless the table is full, with its bytes and the part fields |
| FirmwareTlv.Firmware.Handle | kernel/drivers/net/iwlwifi.c:1844-1919 | the effect of one record of each type |
| FirmwareTlv.Firmware.Parse | kernel/drivers/net/iwlwifi.c:1811-1938 | the walk ends, handles exactly the records up to an overrun, and succeeds exactly without one and with usable parts or sections |
| FirmwareTlv.ParsedSections | kernel/drivers/net/iwlwifi.c:1811-1938 | of any image the first 96 sections of a kind are kept, sorted and stable, inside the image, with their total size |
| FirmwareTlv.PickAlternative | kernel/drivers/net/iwlwifi.c:1819-1824 | the highest of the alternatives 3, 2, 1 in the mask, else 0 |
| FirmwareLaws.AlternativeHighest | kernel/drivers/net/iwlwifi.c:1819-1824 | the alternative in use is one that the mask names, and the highest such, or 0 when it names none |
| FirmwareLaws.RecordsRead | kernel/drivers/net/iwlwifi.c:1827-1843 | an image of records written one after the other is read as exactly these, with their types, alternatives and data, and without an overrun |
| FirmwareLaws.SectionRead | kernel/drivers/net/iwlwifi.c:1888-1902 | a section that was written reads back: load address and bytes |
| FirmwareLaws.LastPartCounts | kernel/drivers/net/iwlwifi.c:1845-1866 | each part of the old format is the last record of its type for the alternative in use |
| FirmwareLaws.NoPartFound | kernel/drivers/net/iwlwifi.c:1845-1866 | a part of which there is no such record stays absent |
| FirmwareLaws.LastFlagsCount | kernel/drivers/net/iwlwifi.c:1867-1871 | the flags are the first word of the last such record that has one |
| Sha1.Transform | kernel/lib/crypto.c:46-91 | the kernel's rounds are the compression of section 6.1.2 of FIPS 180-4 |
| Sha1.Schedule | kernel/lib/crypto.c:48-54 | the 80-word array is the message schedule |
| Sha1.RoundFunction | kernel/lib/crypto.c:62-77 | functions and constants of the four round groups, the or-forms being the standard's |
| Sha1.Fill | kernel/lib/crypto.c:110-119 | bytes put into the buffer, up to the one that fills it, keep the state that of the message so far |
| Sha1.Context.Update | kernel/lib/crypto.c:103-121 | whatever the pieces, the state stands for all bytes put in |
| Sha1.Context.PadTo56 | kernel/lib/crypto.c:123-131 | the zero loop ends, after exactly as many bytes as section 5.1.1 of FIPS 180-4 asks for |
| Sha1.Context.Final | kernel/lib/crypto.c:123-138 | the digest is the standard's hash of everything put in |
| Sha1.HashPieces | kernel/lib/crypto.c:103-146 | however a message is cut into updates, the digest is that of the whole |
| Sha1.PaddingInjective | kernel/lib/crypto.c:123-134 | different messages of permitted length never look the same once padded |
| Sha1Laws.GapLeast | kernel/lib/crypto.c:123-131 | no fewer zero bytes would do |
| Sha1Laws.PaddingParts | kernel/lib/crypto.c:123-134 | byte by byte: one byte 0x80, zeros, and the number of bits in eight bytes |
| Sha1Example.AbcHash | kernel/lib/crypto.c:46-146 | the hash of abc is the one in FIPS 180-4's example |
| Sha1.Sha1 | kernel/lib/crypto.c:140-146 | one call computes the hash |
| Sha1.HmacSha1 | kernel/lib/crypto.c:148-178 | HMAC of RFC 2104 for keys of every length |
| Sha1.PartOf | kernel/lib/crypto.c:193-205 | one output part is the exclusive or of the iterated HMACs, a count of zero taken as one |
| Sha1.Pbkdf2 | kernel/lib/crypto.c:180-213 | PBKDF2 of RFC 8018 for every output length |
| Sha1Laws.HmacBytes | kernel/lib/crypto.c:148-178 | HMAC byte by byte: the hash of the outer pad and the hash of the inner pad and the text |
| Sha1Laws.IterationCounts | kernel/lib/crypto.c:193-205 | what an iteration adds is the HMAC of the one before |
| Sha1Laws.DerivedAt | kernel/lib/crypto.c:180-213 | which part each byte of the derived key comes from, and what that part starts from |
| Sha1Laws.DerivedPrefix | kernel/lib/crypto.c:180-213 | a longer key only adds bytes |
| Sha1.StoreBe64 | kernel/lib/crypto.c:38-44 | eight bytes, most significant first |
| NumberText.UnsignedToString | kernel/lib/printf.c:25-52 | the usual notation of a 64-bit number in base 8, 10 or 16; the 32-digit buffer never runs out |
| NumberText.NoLeadingZero | kernel/lib/printf.c:25-52 | no number but zero starts with a zero |
| NumberText.DigitsMean | kernel/security/user.c:48-57 | the digits of each base, and the values of upper-case ones |
| NumberText.ReadDigits | kernel/lib/string.c:311-328 | reading printed digits gives the number back and stops behind them |
| NumberText.ReadPadded | kernel/security/user.c:44-62 | zero padding does not change what is read |
| NumberText.ParseHex64 | kernel/security/user.c:44-62 | hexadecimal digits modulo 2^64 |
| NumberText.ParseUnsigned32 | kernel/lib/string.c:291-339 | blanks, sign and digits, modulo 2^32 |
| NumberText.ReadSign | kernel/lib/string.c:291-339 | a printed number with blanks and a sign in front reads back with its sign |
| UserTable.OutString | kernel/lib/printf.c:5-23 | characters are appended while they fit the buffer |
| UserTable.OutPadded | kernel/lib/printf.c:54-91 | zero-padded hexadecimal of the given width |
| UserTable.FormatPasswd | kernel/security/user.c:129-132 | a passwd line, cut to its 256-byte buffer |
| UserTable.FormatShadow | kernel/security/user.c:163-171 | a shadow line, cut to its 192-byte buffer |
| UserTable.SplitFields | kernel/security/user.c:107-117 | the fields between colons, the seventh taking the rest |
| UserTable.Table.ParsePasswdLine | kernel/security/user.c:90-122 | a line with seven fields adds a record |
| UserTable.Table.ParseShadowLine | kernel/security/user.c:181-215 | a line of a known user with our scheme sets salt, hash and flag of the first user of that name |
| UserTable.Table.ReadFile | kernel/security/user.c:217-262 | all non-empty lines of the first 2047 characters, in order |
| UserTable.Table.RebuildPasswd | kernel/security/user.c:124-138 | the lines that the 2048-byte buffer has room for, in order |
| UserTable.Table.RebuildShadow | kernel/security/user.c:159-179 | the same for the shadow file |
| UserTable.Table.UsersInit | kernel/security/user.c:243-286 | the table that both files describe, or root alone when there is no root; the passwd file is rewritten exactly then, the shadow file always |
| UserTable.Table.UserAdd | kernel/security/user.c:332-348 | adds exactly one user, refusing invalid or taken names, taken ids and a full table without any change; afterwards both files are those of the table |
| UserTable.AddableMeans | kernel/security/user.c:64-77 | who can be added: a name of letters, digits, underscores and hyphens, neither it nor the number stored, fewer than 32 users |
| UserTable.NewUser | kernel/security/user.c:332-348 | a new user's record: numbers, shell, the name's first 31 characters, the home directory's first 127, no password |
| UserTable.Table.SetPassword | kernel/security/user.c:371-393 | sets or clears one user's password and rewrites the shadow file; the password is then accepted, a non-empty one is required, and every other stored name accepts what it accepted; files that were those of the table still are |
| UserTable.Table.Perform | kernel/security/user.c:332-393 | after any run of operations both files are those of the table |
| UserTable.Table.CheckPassword | kernel/security/user.c:395-405 | accepts exactly by the stored hash, and always without a password |
| UserTable.SetAccepts | kernel/security/user.c:371-405 | a password that was set is accepted, and other names accept what they did |
| UserPasswords.PasswordsApart | kernel/security/user.c:34-44 | under one salt, passwords that differ in one character have different hashes |
| UserPasswords.OtherRefused | kernel/security/user.c:371-405 | once a password is set, one that differs from it in one character is refused |
| UserPasswords.RootSalt | kernel/security/user.c:21-32 | the salt that root starts with, a known value of the hash |
| UserPasswords.SecretLayout | kernel/security/user.c:163-171 | the secret of a shadow line character by character: scheme, eight digits that are the salt, sixteen that are the hash, the fixed rest |
| UserDb.PasswdBack | kernel/security/user.c:107-138 | a passwd line reads back as its user without a password |
| UserDb.PasswdFields | kernel/security/user.c:124-132 | the seven fields of a passwd line, in their order |
| UserDb.ShadowBack | kernel/security/user.c:159-215 | a shadow line reads back as its user's password, found under its name |
| UserDb.PasswdRoundTrip | kernel/security/user.c:107-138 | reading the passwd file back gives exactly the users whose lines were written, in order, if and only if all of these lines but the last are shorter than 256 characters and the last is no longer |
| UserDb.ShadowRoundTrip | kernel/security/user.c:159-241 | reading the shadow file back restores exactly the users whose lines were written |
| UserDb.TableSurvives | kernel/security/user.c:124-286 | the whole table comes back, up to unused salts, exactly when the passwd lines together fit the file, none but the last lost its end, and the shadow line of every user with a password fits |
| UserDb.LongLineLosesUser | kernel/security/user.c:128-136 | a passwd line cut by its buffer in front of another always costs a user |
| UserDb.LongLineRead | kernel/security/user.c:90-122 | such a line is read without complaint: a home directory and a shell of 120 characters each |
| UserDb.CarolLost | kernel/security/user.c:124-138 | with that record between root and another user, a table that the file has room for comes back with fewer than three users |
| UserTable.AddKeepsDistinct | kernel/security/user.c:332-348 | adding a user with any valid name keeps the stored names distinct exactly when the name cut to 31 characters was not stored before |
| UserTable.TwoNames | kernel/security/user.c:332-348 | two names that agree in their first 31 characters can both be added and share a stored name |
| UserTable.RunKeeps | kernel/security/user.c:332-393 | whatever is added and set on a table that can be stored, it can be stored, users who share a name included, of whom only the first has a password; distinct names stay distinct exactly when no name is added whose first 31 characters are stored before |
| UserDb.LoadedStorable | kernel/security/user.c:217-286 | whatever the two files hold, the table that is read can be stored |
| UserTable.RestartKeeps | kernel/security/user.c:243-393 | from any two files and after any run, a restart brings the table back, up to unused salts, exactly when the files have room |
| UserTable.PasswordsSurvive | kernel/security/user.c:243-286 | after a restart exactly the passwords that were accepted are accepted, for every storable table that fits its files |
| UserTable.RunAndRestart | kernel/security/user.c:243-405 | a fresh system, any run of operations and a restart: the same passwords are accepted before and after, provided that the files have room |
| Fat32.Sizing | tools/mkinstallimg.py:69-89 | the first cluster size whose cluster count FAT32 allows, with its geometry, which fits the volume; none exactly when no size does |
| Fat32.TrialFits | tools/mkinstallimg.py:77-82 | tables sized in the second pass have an entry for every cluster, and tables and data fit the volume |
| Fat32.SmallestVolume | tools/mkinstallimg.py:63-91 | an ordinary volume can be formatted exactly from 66599 sectors on, though 65536 are let through |
| Fat32.MkfsAccepts | kernel/fs/fat32.c:90-109 | the kernel's formatter accepts exactly sector counts, modulo 2^32, of at least 525258 or below 34; the geometry holds together exactly in the first case, always with eight sectors to a cluster |
| Fat32.MkfsWraps | kernel/fs/fat32.c:95-109 | from 2 TiB on no accepted volume is formatted whole, and one has no room for its tables exactly when fewer than 34 sectors lie behind a multiple of 2 TiB |
| Fat32.DerivedClusters | tools/mkinstallimg.py:76-103 | for every cluster size, a reader that counts clusters from the boot sector finds at least as many, and entries for all of them exactly up to a bound on the number of sectors |
| Fat32.ReadableVolumes | tools/mkinstallimg.py:76-103 | of all volumes below 2 TiB that can be formatted, exactly those of at most 522110 sectors and at most 130 per table sector plus 30 get such tables |
| Fat32.BuildVolumes | tools/mkinstallimg.py:217-221 | whatever the payload, the volume that the build asks for never does |
| Fat32.DefaultVolume | tools/mkinstallimg.py:217-221 | for the smallest of them, 64 MiB, the tables end two entries short |
| Fat32.Regions | tools/mkinstallimg.py:152-154 | both tables lie before the data area, apart from each other, and all clusters inside the volume |
| Fat32Laws.Placement | tools/mkinstallimg.py:89-154 | two tables behind 32 reserved sectors, then one cluster after the other from number two on |
| Fat32.Ordered | tools/mkinstallimg.py:156-165 | chains are allocated one behind the other and never share a cluster |
| Fat32.Builder.constructor | tools/mkinstallimg.py:62-103 | an empty volume whose root directory is a cluster of zeros |
| Fat32.Builder.AllocateChain | tools/mkinstallimg.py:156-165 | enough consecutive clusters, linked to an end mark, or a failure without change exactly when they run out |
| Fat32Laws.NeededLeast | tools/mkinstallimg.py:156-158 | as many clusters as the bytes need and no more, one for none |
| Fat32.Builder.WriteClusters | tools/mkinstallimg.py:167-182 | the loop along the table writes data and zero filling over exactly the chain's clusters |
| Fat32.Builder.WriteChain | tools/mkinstallimg.py:167-182 | the chain holds the data filled with zeros and every other chain is unchanged; too much data is cut off and reported |
| Fat32Laws.FilledAt | tools/mkinstallimg.py:167-182 | what a chain holds, byte by byte |
| Fat32.Builder.Finalize | tools/mkinstallimg.py:207-214 | in the finished image the boot sector reads back, both tables are equal, and following either from any chain's first cluster gives its bytes |
| Fat32.FollowFrom | tools/mkinstallimg.py:167-182 | following the table from any cluster of a chain gives the rest of its contents |
| Fat32.BootRead | tools/mkinstallimg.py:105-140 | the layout read from the boot sector is the one the builder used |
| Fat32Laws.BootMarks | tools/mkinstallimg.py:105-135 | media byte, extended signature, title, type and the two last bytes of the boot sector |
| Calendar.RtcToEpoch | kernel/arch/x86_64/cmos.c:69-81 | for years from 1970 on the seconds since then |
| Calendar.DayNumberIs | kernel/arch/x86_64/cmos.c:55-81 | the number of a day in closed form, with leap days by centuries, for all years |
| Calendar.YearLength | kernel/arch/x86_64/cmos.c:55-75 | a year has 366 days exactly if it is divisible by 4 and not by 100, or by 400 |
| ClockRegisters.ReadShown | kernel/arch/x86_64/cmos.c:14-53 | the time that the clock shows is the time that is read, in each of its four formats, except in 12-hour mode between twelve and one, where noon and midnight change places |
| Calendar.DatesDiffer | kernel/arch/x86_64/cmos.c:60-81 | two valid dates with the same day number are the same date |
| Calendar.Clock.PreviousDay | kernel/core/applets.c:921-931 | the valid date one day before |
| Calendar.Clock.NextDay | kernel/core/applets.c:933-943 | the valid date one day after |
| Calendar.Clock.ApplyTimezone | kernel/core/applets.c:918-947 | the valid time exactly so many minutes away, seconds kept |
| Calendar.ShiftAndBack | kernel/core/applets.c:918-947 | the epoch of the shifted date is the epoch shifted, and shifting back restores the date |
| Checksum.InetChecksum | kernel/drivers/net/net.c:158-174 | the complement of the one's complement sum, for every buffer of at most 131074 bytes, and for a longer one exactly when the carries lost from 32 bits are a multiple of 65535 and something is left; the folding loop ends |
| Checksum.ByteCounts | kernel/drivers/net/net.c:158-167 | each byte counts by its place: 256-fold at an even one, the odd last one too, singly at an odd one |
| Checksum.ChecksumCompletes | kernel/drivers/net/net.c:158-174 | sum and checksum add up to a multiple of 65535, and it is 65535 for zeros only |
| Checksum.CarryRound | kernel/drivers/net/net.c:170-172 | carrying the high half round keeps the value modulo 65535 and whether it is zero |
| Checksum.SumPut | kernel/drivers/net/net.c:158-167 | a field at an even place adds its value to the sum |
| Checksum.FieldVerifies | kernel/drivers/net/net.c:399-432 | with the checksum of the zeroed buffer in its field the checksum of the whole is zero; besides it only 0xffff in place of 0 does that |

## Left out

- Krealloc: a shrink in place is modelled as it is coded, without merging; the run theorems therefore leave out calls that shrink.
- Kfree: a pointer into the heap that is no block's address and yet finds the magic number in front of it, in some owner's bytes, is excluded, and so is a pointer into the first 32 bytes of the array, in front of which there is no heap; freeing a block that is free already is covered.
- Heap statistics: `pmm_record_heap` and the high-water report are not modelled beyond the high-water mark itself.
- Content pointers of the file system are positions in numbered buffers; whether `kmalloc` finds memory is a parameter of the calls that allocate, and releasing old buffers is not modelled.
- WriteNode: offset plus length is taken to stay below 2^64 - 1, where the source would wrap.
- The clock that numbers file system changes does not wrap in the model; the node pool is a sequence that grows up to the source's limit.
- `vfs_chmod`, `vfs_chown`, `vfs_stat` and `vfs_list`: single field accesses.
- MountOne: an entry whose offset plus size wraps 64 bits is excluded; the source would point a node outside the image.
- MountEntries: excludes the same entries.
- MountImage: only images that stay in memory are modelled, not the copying mount from disk, and images whose own 64-bit sums wrap are excluded.
- Writing the tree back to disk (`tfs_sync`) and finding the root partition.
- Collecting a directory tree: the owner and group packed are whatever the collector records, which is 0 for both in the tool; what `os.walk` yields is described by the precondition of the round trip: directories for every path, sorted as the tool sorts; paths are text in one-byte characters.
- SetLeaf: flags have twelve bits, as all of the kernel's flag constants for these calls do, where the parameter in the source has 64.
- MapHuge: the same flags.
- MapPage: the same flags.
- MapRange: the same flags.
- Table entries carry their address field and low twelve bits separately; the address-space reload after mapping has no effect in the model.
- The Linux-compatible break and mappings, file descriptor tables, and loading the program itself.
- Finding the largest memory region for the frame pool at boot; the pool's bounds are given, and so is where the boot modules end.
- Concurrency: the kernel takes no locks in these parts, and the model runs one call at a time.
- The block cipher is a parameter: AES itself, with its S-box, is not modelled. That every block counts holds for ciphers that are injective under each key, as AES is.
- The additional data of a frame is taken as the driver builds it, not compared with IEEE 802.11.
- Association, key exchange, queues and registers of the wireless driver; the legacy firmware format.
- `tnu_wpa_prf`: one more loop over HMAC.
- The format-string interpreter of `ksnprintf`: the two line formats are written out as the calls that it makes.
- `/etc/group`, deleting users, the current user beyond its reset, and the directories and modes that user operations set; writes to the two files are taken to succeed.
- FSInfo of the FAT32 volume, directory entries and their names, and the partition table around the volume; cluster counts are computed exactly where the tool divides floating-point numbers.
- FreeFrame: aligned frames that nobody holds are a caller's error and are excluded.
- WriteChain: only first clusters of allocated chains are accepted, as the build passes them.
- Reading the clock's ports and waiting for it to settle: the register values are given.
- RtcToEpoch: years before 1970 and 64-bit wrap-around are outside its promise.
- Drivers, console, shell, process table, scheduler and the network protocols.
