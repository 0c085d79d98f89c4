# RetaOS verification model

RetaOS is a small x86 kernel written in C. This project models the parts of it that are
state and logic rather than hardware, and proves what they keep over every run. Each part comes
as a pure specification with its theorems, and as imperative code on arrays, linked objects or
the bytes of memory itself, proved equal to the specification.

| files | part |
|---|---|
| `KHeapModel`, `KHeap` | the kernel heap: a block list whose headers live in the arena they describe |
| `Tokens` | C strings in buffers; `strtok_r` and the libc `strtok`, which cut them up in place |
| `FsTree`, `Archive`, `ArchiveWriter`, `ArchiveView`, `DirLookup`, `InitrdFs`, `VfsFiles`, `VfsClient` | a ustar image mounted as a tree, path lookup, open files and reads |
| `FatModel`, `FatRead`, `FatDir`, `FatDirImpl` | FAT32: two file readers, two directory searches, and when they agree |
| `SchedModel`, `SchedYield`, `SchedTime`, `Sched` | ready and sleep lists, time slices, ticks |
| `KbdModel`, `Keyboard` | scancodes, and a ring filled by interrupts |
| `Bits`, `FrameModel`, `FramePool`, `BlockModel`, `BlockPool` | two physical memory bitmaps |
| `ConsoleModel`, `Console` | a scrolling screen and the endless page behind it |
| `PageModel`, `Paging` | two-level page tables |
| `CTypes`, `Options`, `Errno` | bytes, 32-bit words, wrap-around; optional values; error numbers |

Integers are unbounded except where the C code's width matters; there the 32-bit wrap is written
out (`Wrap32`). The disk is a function from block addresses to 512 bytes, the initrd image a byte
array, the timer and the keyboard interrupt are calls. Formats: "ustar Interchange Format" of the
pax utility in IEEE Std 1003.1; Microsoft FAT32 File System Specification 1.03; Intel SDM
Vol. 3A, section 4.3.

Main theorems: `KHeapModel.RunKeeps` and `KHeapModel.MallocComplete`; `VfsClient.ReadBack` and
`ArchiveView.LookupIff`; `FatRead.ReadFileData` with `FatRead.ReadFileWindow` and
`FatModel.ReadChainOfFile` and `FatRead.ContentByte`; `SchedModel.RunInv`, `SchedTime.QuantumBound` and `SchedTime.BootQuantum`;
`KbdModel.RunDelivers`; `FrameModel.RunConserves`; `BlockModel.RunExact`;
`ConsoleModel.ScreenIsPage`; `PageModel.MapAllIs`; `Tokens.CallGives` with `Tokens.LibcSame`.

Some promises turned out to hold only under a condition, which is stated as an equivalence, most with a lemma at an
input at which they fail:

- kmalloc's growth branch is dead except for sizes whose sum with the heap end wraps 32 bits
  (`KHeapModel.GrowsIff`); the model calls the store past the mapped heap that follows a fault.
- krealloc in place gives nothing back, so its slack is unbounded (`KHeapModel.ReallocResult`,
  `RunSlack`, `ShrinkExample`).
- ensure_dir and lookup agree exactly on paths without "." and "..", without components longer than
  a name, and without a newer file that shadows a directory (`FsTree.EnsureThenLookup`,
  `DirLookup.EnsureThenLookupPath`, `DotExample`).
- The mount reads the path the ustar format gives exactly when the prefix field is empty and the name
  does not run on into the mode field (`Archive.FormatNameExact`, `PrefixExample`, `LongNameExample`).
- `fs/fat32.c` does not mask the reserved top bits of FAT entries (`FatModel.AgreeIff`,
  `NibbleExample`), goes on past the end mark of a directory (`FatDirImpl.ListingsAgreeIff`,
  `GapExample`), and its VFS clamp adds in 32 bits (`FatRead.ClampExact`, `ClampExample`).
- `fs/fat32_impl.c` lists padded names that its own search does not find (`FatDirImpl.ListedNameIff`,
  `ListedIsFound`, `PaddedExample`), and the two searches by name agree exactly when the first entry
  either would take is one both would (`SearchesAgreeIff`, `SpacedExample`).
- Sleep and exit are for a RUNNING thread (`SchedModel.SleepKeepsIff`, `ExitKeepsIff`, and with the
  yield taken as a tick `SchedYield.SleepTickKeepsIff`, `ExitTickKeepsIff`): a thread that
  sleeps with nobody ready stays current, and its exit then leaves it ended in the sleep list, where
  the sweep makes it READY again (`ExitAsleep`, `ExitAsleepReached`).
- The scheduler is called round robin in docs/architecture.md:20, but pushes and pops at the front
  of one list, so yields and ticks alternate between two threads (`SchedTime.PairRun`,
  `SchedTime.FairIff`, `UnfairExample`).
- A memory map entry that does not start on a frame's border offers a frame that it holds only in part
  (`FrameModel.OfferedWholeIff`).
- Freeing a reserved frame is accepted and gives it out (`FrameModel.FreeAnyIff`, `FreeLowExample`).
- A block address 0 cannot be told from failure (`BlockModel.NullIff`, `NullExample`).
- Counts of 2^31 bytes and more come back from reads as negative numbers (`CTypes.Signed`,
  `VfsFiles.Vfs.Read`, `VfsClient.LostExample`).

`dafny verify dfyconfig.toml` checks the project.

## Model

| member | source | states |
|---|---|---|
| `KHeapModel.TilesExtent` | kernel/kheap.c:37 | sizes plus 12-byte headers of any tiling sum to exactly the region it tiles |
| `KHeapModel.Disjoint` | kernel/kheap.c:46-154 | no two blocks of the list overlap, so payloads and headers are pairwise disjoint and inside the arena |
| `KHeapModel.PointerUnique` | kernel/kheap.c:110 | a payload pointer names at most one block |
| `KHeapModel.FirstFit` | kernel/kheap.c:58-59 | the block found is free and large enough, and no earlier one is both |
| `KHeapModel.CarveInv` | kernel/kheap.c:59-73 | taking a block, split or whole, keeps the list tiling the arena with no two neighbours free |
| `KHeapModel.CarveLive` | kernel/kheap.c:59-73 | exactly one block becomes live, of the request or at most 16 bytes more; every other live block stays as it is |
| `KHeapModel.MallocInv` | kernel/kheap.c:46-102 | kmalloc keeps the block invariant and every live block, whatever size is asked for |
| `KHeapModel.MallocFresh` | kernel/kheap.c:59-74 | the block handed out was not live before, is live after, and has max(size, 4) bytes and at most 16 more |
| `KHeapModel.MallocComplete` | kernel/kheap.c:46-85 | kmalloc gives no block exactly when no run of adjacent free blocks has max(size, 4) bytes; it then stores past the heap exactly when its growth test lets the request through |
| `KHeapModel.GrowsIff` | kernel/kheap.c:81-85 | the growth branch is taken exactly for sizes whose aligned sum with the heap end wraps 32 bits, 0x3FEFEFF4 < size <= 0xFFFFEFF4; for all others the branch is dead |
| `KHeapModel.CoalesceShape` | kernel/kheap.c:113-122 | the sweep keeps the tiling and leaves no two free neighbours |
| `KHeapModel.CoalesceLive` | kernel/kheap.c:113-122 | the sweep keeps exactly the live blocks |
| `KHeapModel.CoalesceFixpoint` | kernel/kheap.c:113-122 | on a list with no two free neighbours the sweep changes nothing |
| `KHeapModel.FreeInv` | kernel/kheap.c:105-123 | kfree of any pointer to a block, or of none in range, keeps the invariant |
| `KHeapModel.FreeLive` | kernel/kheap.c:105-123 | after kfree(p) the live pointers are those of before but p |
| `KHeapModel.FreeAllRestores` | kernel/kheap.c:105-123 | freeing all live blocks in any order gives back the single initial block |
| `KHeapModel.StepInv` | kernel/kheap.c:46-154 | kmalloc, kfree, krealloc and client stores each keep the invariant |
| `KHeapModel.StepKeeps` | kernel/kheap.c:46-154 | a step keeps every live block it neither frees nor moves, with every byte of its payload |
| `KHeapModel.StepKeepsByte` | kernel/kheap.c:46-154 | byte by byte: only the owner's store changes a byte of a live block |
| `KHeapModel.RunInv` | kernel/kheap.c:46-154 | over every run of calls and stores all heaps tile the 1 MB exactly in canonical form |
| `KHeapModel.RunKeeps` | kernel/kheap.c:46-154 | data integrity over every run: a block that stays unfreed keeps its place, size and every byte its owner did not store |
| `KHeapModel.ReallocResult` | kernel/kheap.c:126-154 | what krealloc returns is live and large enough; its slack over max(size, 4) is within 16 exactly when it moved or was that close before |
| `KHeapModel.MallocLowest` | kernel/kheap.c:50-74 | the pointer is that of the lowest free block with max(size, 4) bytes, 12 bytes past its header |
| `KHeapModel.FreeOutside` | kernel/kheap.c:105-111 | kfree of a pointer outside 0xC0000000..0xC0100000 changes nothing; one inside must be 12 bytes past the header of a block |
| `KHeapModel.ReallocNull` | kernel/kheap.c:127-129 | krealloc of NULL is kmalloc |
| `KHeapModel.ReallocZero` | kernel/kheap.c:130-134 | krealloc to no bytes gives NULL and frees that block and no other |
| `KHeapModel.ReallocBytes` | kernel/kheap.c:136-153 | moved or not, the block krealloc returns starts with all the bytes of the old one, and an old block moved from is live no more |
| `KHeap.SweepCoalesces` | kernel/kheap.c:113-122 | the sweep with its moving cursor is the recursive merge of all free runs |
| `KHeap.PayloadStore` | kernel/kheap.c:147-148 | a store inside one payload leaves every header as it is |
| `KHeap.PayloadKept` | kernel/kheap.c:147-148 | and every other live payload |
| `KHeap.KernelHeap.constructor` | kernel/kheap.c:24-43 | the arena holds one free block of 1 MB less a header, as bytes of its header |
| `KHeap.KernelHeap.Find` | kernel/kheap.c:54-78 | the walk over in-arena headers returns the first free block that is large enough, or NULL |
| `KHeap.KernelHeap.Split` | kernel/kheap.c:61-70 | writing the two headers of a split changes exactly those 24 bytes |
| `KHeap.KernelHeap.Claim` | kernel/kheap.c:59-73 | the found branch turns the block list into the carved list, header bytes and all, and keeps every live payload byte |
| `KHeap.KernelHeap.Kmalloc` | kernel/kheap.c:46-102 | kmalloc on the bytes of the arena is the list model's kmalloc, so takes the lowest free block of max(size, 4) bytes, and changes no live payload byte |
| `KHeap.KernelHeap.Merge` | kernel/kheap.c:116-118 | one merge on header bytes is the merge of two neighbouring list entries |
| `KHeap.KernelHeap.Sweep` | kernel/kheap.c:113-122 | the loop over the headers coalesces the list and keeps live payloads |
| `KHeap.KernelHeap.Kfree` | kernel/kheap.c:105-123 | kfree on the bytes of the arena is the list model's free; an address outside the heap does nothing |
| `KHeap.KernelHeap.Move` | kernel/kheap.c:141-153 | allocate, copy, free: the old bytes are in the new block and all other live payloads are unchanged |
| `KHeap.KernelHeap.Krealloc` | kernel/kheap.c:126-154 | krealloc on the bytes of the arena is a step of the model: NULL, zero size, in place, and moving |
| `KHeapModel.ShrinkExample` | kernel/kheap.c:136-139 | krealloc of 1000 bytes to 4 keeps 1000 |
| `KHeapModel.StepArrives` | kernel/kheap.c:46-154 | a live block after a step was there before, or is the one returned, of max(size, 4) bytes and at most 16 more |
| `KHeapModel.RunSlack` | kernel/kheap.c:46-154 | over every run from the fresh heap a live block has 0 to 16 bytes more than max(size, 4) of the size it was handed out for, and more than 16 over the size last asked only after a krealloc in place for less, always after one for less by more than 16 |
| `Tokens.SpansSound` | kernel/vfs.c:14-39 | every token is a maximal run of non-delimiters, in order |
| `Tokens.SpansComplete` | kernel/vfs.c:14-39 | every maximal run of non-delimiters is a token |
| `Tokens.CutToken` | kernel/vfs.c:17-38 | one call returns the next maximal run of the text, ended by a NUL of its own |
| `Tokens.CutLeft` | kernel/vfs.c:17-38 | the calls to come see exactly the tokens after the one returned |
| `Tokens.CutComponents` | kernel/vfs.c:17-38 | the same by the tokens' characters |
| `Tokens.CallGives` | kernel/vfs.c:14-39 | in every run of calls, call k returns token k of the original text while there is one and NULL for ever after |
| `Tokens.TokenStays` | kernel/vfs.c:14-39 | a returned token keeps its original characters whatever calls follow |
| `Tokens.LibcSame` | libc/src/string.c:40-58 | call for call strtok returns what strtok_r returns and leaves the same buffer |
| `Tokens.SplitTrim` | kernel/initrd.c:52-55 | trailing delimiters add no token |
| `Tokens.StrSpn` | kernel/string.c:80-98 | strspn is the length of the leading run of accepted characters |
| `Tokens.StrPBrk` | kernel/string.c:66-78 | strpbrk is the first accepted character, or NULL |
| `Tokens.StrLen` | kernel/string.c:47-53 | strlen is the distance to the first NUL |
| `Tokens.StrTokR` | kernel/vfs.c:14-39 | strtok_r on the buffer is one Cut: token, save pointer and bytes |
| `Tokens.StrTok.Call` | libc/src/string.c:40-58 | strtok with its static pointer is one LibcCut: token, pointer and bytes |
| `FsTree.Child` | kernel/vfs.c:273-283 | the child found is the newest of that name in the directory |
| `FsTree.EnsureDirMakes` | kernel/initrd.c:44-96 | ensure_dir returns a directory with the path asked for and keeps every node as it was |
| `FsTree.EnsureDirAdds` | kernel/initrd.c:79-91 | all it creates are directories of mode 0755 on the path asked for |
| `FsTree.EnsureDirUnique` | kernel/initrd.c:73-91 | it never makes two directories of one name in one directory |
| `FsTree.EnsureDirTwice` | kernel/initrd.c:44-96 | a second call for the same path creates nothing and returns the same directory |
| `FsTree.WalkDepth` | kernel/vfs.c:247-261 | a walk goes down at most one level a component, and by less with "." or ".." among them |
| `FsTree.EnsureThenLookup` | kernel/vfs.c:247-328 | for any components, lookup reaches the directory ensure_dir returned if and only if none is "." or ".." and no newer file of the same name shadows one |
| `DirLookup.EnsureThenLookupPath` | kernel/initrd.c:44-96 | for any path string, the same if and only if besides no component is longer than a name |
| `DirLookup.CompsJoin` | kernel/vfs.c:229-252 | the components of two strings joined by "/" are those of the one and then those of the other |
| `DirLookup.CompsOne` | kernel/vfs.c:229-252 | a string without "/" is one component, or none if empty; of more than 4095 characters the first 4095 count |
| `DirLookup.DirCompsAre` | kernel/initrd.c:45-72 | the components ensure_dir takes are those lookup takes but for a "." in front, each cut to its first 255 characters |
| `DirLookup.DotExample` | kernel/initrd.c:59-91 | a path with "." in the middle, unshadowed, for which the two differ |
| `DirLookup.WalkFits` | kernel/vfs.c:273-289 | a component longer than 255 characters is found nowhere |
| `DirLookup.LookupAsRaw` | kernel/vfs.c:229-252 | a leading "./", which ensure_dir strips, makes no difference to lookup |
| `DirLookup.HeaderLawful` | kernel/initrd.c:235-299 | a header keeps the tree, one child directory of a name at most, and names that fit |
| `DirLookup.MountLawful` | kernel/initrd.c:230-302 | so has every mounted tree, whatever the image |
| `FsTree.WalkResolves` | kernel/vfs.c:248-292 | what lookup of any components reaches has the path they resolve to, "." and ".." included |
| `FsTree.ResolvePlain` | kernel/vfs.c:248-292 | components without "." and ".." resolve to themselves |
| `FsTree.SamePath` | kernel/vfs.c:264-292 | two nodes of one path are one node if either is a directory |
| `FsTree.WalkNewest` | kernel/vfs.c:273-292 | what lookup reaches is a directory or the newest child of its name |
| `FsTree.WalkAppend` | kernel/vfs.c:247-328 | lookup is a fold: a path with one more component is a lookup and one step |
| `FsTree.WalkDir` | kernel/vfs.c:247-328 | in a tree where no directory shares its name, a directory is found by its path |
| `FsTree.WalkReaches` | kernel/vfs.c:247-328 | what lookup of a plain path reaches is a node with that path |
| `Archive.MountBuilds` | kernel/initrd.c:230-300 | the 32-bit offset loop over the image of an archive adds its entries in order and stops after the last |
| `Archive.HeaderIsEntry` | kernel/initrd.c:235-299 | the loop body at a header adds the entry the header encodes |
| `Archive.FileParts` | kernel/initrd.c:246-262 | a file name splits into the components of its directory and its last component |
| `Archive.DirParts` | kernel/initrd.c:285-287 | a directory name's components are those of its path |
| `Archive.SplitBase` | kernel/initrd.c:251-260 | cutting at the last separator cuts off the last component |
| `Archive.OctalRoundTrip` | kernel/initrd.c:143-151 | a field of octal digits parses back to the number written |
| `Archive.OctalThree` | kernel/initrd.c:143-151 | a mode of octal digits u, g, o is written as the three characters "0"+u, "0"+g, "0"+o |
| `Archive.PaddedSize` | kernel/initrd.c:298-299 | data takes the least multiple of 512 bytes that holds it |
| `Archive.FieldsRead` | kernel/initrd.c:240-241 | size at byte 124 and mode at byte 100, written as octal digits and a NUL or space, are read as written |
| `Archive.NameReadWhole` | kernel/initrd.c:242 | the name field is read as the format means it if and only if it is shorter than 100 characters or the next byte is NUL |
| `Archive.LongNameExample` | kernel/initrd.c:242 | a name of 100 characters that is read on into the mode |
| `Archive.FormatNameIff` | kernel/initrd.c:242-248 | the path the mount reads is the path the format gives, prefix included, if and only if the prefix field is empty, for a name read whole; and with an empty prefix if and only if the name is read whole |
| `Archive.FormatNameExact` | kernel/initrd.c:242-248 | both together: the path read is the format's if and only if the prefix is empty and the name does not run on, where the fields behind the name hold no "/" |
| `Archive.EntryFormatName` | kernel/initrd.c:242 | the entries of an archive have the paths the format gives their headers |
| `Archive.PrefixExample` | kernel/initrd.c:242-248 | a header with a one-letter prefix, mounted under its bare name |
| `ArchiveWriter.HeaderIs` | kernel/initrd.c:99-117 | the header written has name, mode, size, type and prefix at bytes 0, 100, 124, 156 and 345 of 512 |
| `ArchiveWriter.ImageEncodes` | kernel/initrd.c:230-300 | the image written for a list of entries is an archive of them |
| `Archive.PrefixIgnored` | kernel/initrd.c:235-299 | headers that differ only in the prefix field add the same node |
| `ArchiveView.BuildStands` | kernel/initrd.c:230-300 | each file of the archive is in the tree with its path, its data and the mode of its header, or 0644 where that is 0, each directory is there, and nothing else is |
| `ArchiveView.BuildModes` | kernel/initrd.c:79-91 | every directory of the tree has the last mode but 0 that an entry for it gives, or 0755 |
| `ArchiveView.LookupFile` | kernel/vfs.c:211-330 | lookup of a file's path finds the last entry with that path |
| `ArchiveView.LookupDir` | kernel/vfs.c:211-330 | lookup of an ancestor or a directory entry finds a directory |
| `ArchiveView.LookupPlainIff` | kernel/vfs.c:211-330 | lookup of a path without "." and ".." succeeds if and only if it is an entry or an ancestor of one |
| `ArchiveView.ChildKnown` | kernel/vfs.c:273-289 | a name the archive has below a node's path is a child of that very node |
| `ArchiveView.LookupIff` | kernel/vfs.c:211-330 | lookup of any components, "." and ".." included, succeeds if and only if every step of the way is to an entry or an ancestor of one |
| `ArchiveView.LookupAnyFile` | kernel/vfs.c:211-330 | components that lead to a file's path by such steps reach the last entry with that path |
| `ArchiveView.PlainLeads` | kernel/vfs.c:211-330 | the plain spelling of a file's path leads there |
| `ArchiveView.SpelledOut` | kernel/vfs.c:229-252 | so does every path string with just its components |
| `ArchiveView.ArchiveRoundTrip` | kernel/initrd.c:204-305 | after mounting any archive without clashes, looking a file up by any path string that leads to it, "." and ".." included, finds its node and the extent of the image that holds its bytes |
| `ArchiveView.ArchiveLookup` | kernel/vfs.c:211-330 | after mounting, any path string is found if and only if every step of its components is to an entry or an ancestor of one |
| `InitrdFs.ReadOctal` | kernel/initrd.c:143-151 | the accumulation loop computes the octal value in 32 bits |
| `InitrdFs.StrRChr` | kernel/string.c:55-64 | strrchr finds the last separator or NULL |
| `InitrdFs.Initrd.AddNode` | kernel/initrd.c:316-320 | pushing a node at the front of the children list adds one record to the tree and leaves all others |
| `InitrdFs.Initrd.FindChildDir` | kernel/initrd.c:74-78 | the walk over next pointers finds the first child directory of that name |
| `InitrdFs.Initrd.FindChild` | kernel/vfs.c:273-283 | the walk over next pointers finds the first child of that name |
| `InitrdFs.Initrd.EnsurePath` | kernel/initrd.c:44-96 | ensure_dir on linked nodes is EnsureDir of the path's components |
| `InitrdFs.Initrd.MountFile` | kernel/initrd.c:244-282 | a file header adds its directories and its node, as in the model |
| `InitrdFs.Initrd.MountDir` | kernel/initrd.c:285-296 | a directory header ensures the directory and sets its permissions when any are given |
| `InitrdFs.Initrd.MountHeader` | kernel/initrd.c:235-299 | the loop body is AddHeader |
| `InitrdFs.Initrd.MountInitrd` | kernel/initrd.c:204-305 | mount_initrd builds exactly the model's tree, or -EINVAL for an image below one block |
| `VfsFiles.VfsLookup` | kernel/vfs.c:211-330 | vfs_lookup over the in-place tokenised copy is the walk over the components of the path's first 4095 characters, or -ENOENT |
| `VfsFiles.StepNode` | kernel/vfs.c:248-292 | "." stays, ".." goes to the parent and stays at the root, a name goes to the first child of that name |
| `VfsFiles.Vfs.Open` | kernel/vfs.c:444-598 | vfs_open for reading: -EMFILE, -ENOENT, -EACCES exactly when none of the three octal digits of the mode is 4 or more, or the lowest free descriptor holding a copy of the node at position 0 |
| `VfsFiles.ReadableDigits` | kernel/vfs.c:535-540 | the bits 0444 are met if and only if one of the octal digits for user, group and others is at least 4 |
| `VfsFiles.Vfs.TarRead` | kernel/initrd.c:154-170 | tar_read copies the bytes left, at most the count asked for, from the image |
| `VfsFiles.Vfs.Read` | kernel/vfs.c:333-382 | vfs_read copies the bytes at the position, returns their number as a signed 32-bit result and moves the position by it if positive; every error leaves all as it was |
| `VfsFiles.Vfs.Lseek` | kernel/vfs.c:619-658 | vfs_lseek sets the position from start, position or end, and refuses a negative one |
| `VfsFiles.Vfs.Close` | kernel/vfs.c:601-616 | vfs_close frees exactly that slot |
| `VfsFiles.ChunksInOrder` | kernel/vfs.c:333-382 | reads of any sizes return the data from the position on, in order, without gap or repeat |
| `VfsFiles.ReadIsStep` | kernel/vfs.c:354-372 | one vfs_read is one such step on the file's bytes in the image |
| `VfsFiles.ArchiveReads` | kernel/initrd.c:204-305 | archive in, same bytes out: mount, look up by path, and the node has the mode of the header, or 0644 where that is 0, and reads in chunks of any sizes give the file's bytes in order |
| `VfsClient.ReadAllBytes` | kernel/vfs.c:668-694 | vfs_read_all: the error codes in their order, or the first maxlen-1 bytes of the file and a NUL; the table of open files ends as it began |
| `VfsClient.OpenError` | kernel/vfs.c:444-540 | which error vfs_open gives: no free slot among 32, then no node, then no mode digit of 4 or more |
| `VfsClient.ReadOpened` | kernel/vfs.c:678-693 | read and close: the bytes, the NUL, the slot freed; counts of 2^31 and more come out negative and leave no NUL |
| `VfsClient.WrittenFound` | kernel/initrd.c:204-305 | written out as an image, mounted and looked up, every file is there with its bytes |
| `VfsClient.SplitNonempty` | kernel/vfs.c:14-39 | no component of a path is empty |
| `VfsClient.FoundFile` | kernel/initrd.c:204-305 | the node a file of the archive is found at is a named file with its size, permissions and bytes |
| `VfsClient.ReadChunks` | kernel/vfs.c:333-382 | a loop of vfs_read calls with any sizes collects what each read gives, a count of 2^31 and more giving nothing |
| `VfsClient.GetsInOrder` | kernel/vfs.c:333-382 | when no read gives 2^31 bytes or more, that is the data in order |
| `VfsClient.LostExample` | kernel/vfs.c:354-371 | 2 GB asked for of a file that has them: nothing comes back |
| `VfsClient.ReadBack` | kernel/initrd.c:204-305 | the calls themselves, end to end: mount_initrd, vfs_open by any path string that leads to the file and any sequence of vfs_read give exactly the bytes archived, as far as each count fits a signed result, or -EACCES exactly when no octal digit of the mode in its header, or of 0644 where that is 0, is 4 or more |
| `FatModel.ReadChainIsSlice` | fs/fat32.c:263-298 | walking the chain cluster by cluster gives the slice off..off+n of the clusters laid end to end |
| `FatModel.ChainIs` | fs/fat32.c:65-67 | a chain starts at its first cluster, follows the FAT, and ends at an entry of 0x0FFFFFF8 or more, below 2 or past the FAT |
| `FatRead.DataArea` | fs/fat32.c:70-72 | the data area is the clusters end to end: cluster c is bytes 512*spc*(c-2) to 512*spc*(c-1) of the sectors from its begin on |
| `FatRead.ContentByte` | fs/fat32_impl.c:40-42 | byte j of sector q of the i-th cluster of a chain is byte j of disk sector begin + (chain[i]-2)*spc + q |
| `FatRead.SectorByte` | fs/fat32.c:79-88 | byte 512*q+j of a run of sectors is byte j of its sector q |
| `FatModel.ReadChainOfFile` | fs/fat32.c:238-304 | for a chain that ends: exactly the bytes off..min(off+n, total), and none past the end |
| `FatModel.AgreeIff` | fs/fat32_impl.c:26-35 | reading a FAT entry plain or masked leads to the same place if and only if its top four bits are zero or the masked value is an end mark |
| `FatModel.NibbleExample` | fs/fat32.c:65-67 | an entry where the two readers differ |
| `FatRead.SectorsWindow` | fs/fat32_impl.c:295-307 | the sectors read from the middle of a cluster are that part of the cluster |
| `FatRead.LoadFat` | fs/fat32.c:124-141 | the FAT read in chunks of at most 255 sectors is the FAT |
| `FatRead.WordAt` | fs/fat32.c:124-141 | entry i of the FAT is its bytes 4i to 4i+3, lowest first |
| `FatRead.InitVolume` | fs/fat32.c:107-141 | where clusters begin and how many there are, from the boot sector's fields in 32-bit arithmetic |
| `FatRead.SkipTo` | fs/fat32.c:263-270 | the skip loop stops within one cluster of the offset or at the chain's end, on cyclic chains too, and reading from there is reading from the start |
| `FatRead.TakeCluster` | fs/fat32.c:274-297 | one turn appends the wanted part of the cluster to the caller's buffer |
| `FatRead.ReadFileData` | fs/fat32.c:238-304 | the whole-cluster reader returns the chain's bytes and their number as a signed 32-bit result, touches no byte of the buffer past them, and terminates on cyclic FATs |
| `FatRead.WindowPart` | fs/fat32_impl.c:295-313 | the partial-sector window holds the wanted part of the cluster |
| `FatRead.MaskedStep` | fs/fat32_impl.c:30-35 | a step with mask and range check goes where the plain step goes |
| `FatRead.WindowSkip` | fs/fat32_impl.c:279-286 | the division-based skip finds the cluster of the offset, or the chain has no byte there |
| `FatRead.ReadFileWindow` | fs/fat32_impl.c:269-331 | the sector-window reader returns the same count and the same bytes as the whole-cluster reader, -EINVAL below cluster 2 |
| `FatRead.FilePriv.Read` | fs/fat32_vfs.c:75-95 | the clamped read: -EISDIR, nothing past the size, else the chain's bytes as clamped, and the position after them |
| `FatRead.ClampExact` | fs/fat32_vfs.c:82-84 | the clamp gives exactly the wanted bytes of the recorded size if and only if offset+count does not wrap 32 bits or the last cluster has no spare bytes |
| `CTypes.SliceAt` | fs/fat32_vfs.c:82-84 | what a window of n bytes at a position holds: as many as are there, each from its place |
| `FatDir.EntriesChain` | fs/fat32.c:316-384 | the visible entries of a chain are those of its first cluster and then those of the rest |
| `FatDir.ReadableName` | fs/fat32.c:192-215 | an 8.3 name becomes name.ext without spaces, folded as `FatDir.NameLower` and `FatDir.NameExample` say |
| `FatDir.NameLower` | fs/fat32.c:192-215 | no character of a readable name is in A..Z, or a space |
| `FatDir.NameExample` | fs/fat32.c:192-219 | "A       TXT" is listed as "a.txt" and found by "a.txt" and by "A.TXT" |
| `FatDir.LowerIff` | kernel/string.c:100-105 | tolower makes two characters equal if and only if they are, or one is in 65..90 and the other 32 above it |
| `FatDir.FoldIff` | fs/fat32.c:40-53 | folded strings are equal if and only if the strings are, character by character, in that sense |
| `FatDir.DirEntFields` | fs/fat32.c:219-226 | size is bytes 28 to 31 of the record, first cluster bytes 26, 27, 20, 21, lowest first, attributes byte 11 |
| `FatDir.EntriesNext` | fs/fat32.c:175-190 | a listing goes 32 bytes at a time and takes a record exactly when its first byte is neither 0 nor 0xE5 and its attributes have none of the bits 2, 4 and 8 |
| `FatDir.StrCaseCmp` | fs/fat32.c:40-53 | strcasecmp is 0 exactly when the strings have the same length and each two characters are equal, or one is in A..Z and the other 32 above it; else the difference of the first characters that are not |
| `FatDir.ReaddirIndex` | fs/fat32.c:307-387 | entry number index among the visible entries of the whole directory, or -ENOENT exactly past the last |
| `FatDir.FindEntry` | fs/fat32.c:154-235 | the first visible entry of that name but for the case of letters, as in `FatDir.StrCaseCmp`, or -ENOENT; cyclic directories included when the entry comes before the cycle closes |
| `FatDir.SearchIsListing` | fs/fat32.c:154-235 | search and listing agree: least index of the name, and nothing exactly when no index has it |
| `FatDirImpl.LookConcat` | fs/fat32_impl.c:117-183 | looking through records is compositional over sectors and clusters, early end included |
| `FatDirImpl.LookIs` | fs/fat32_impl.c:129-178 | the scan finds the wanted entry among those before the first record never used |
| `FatDirImpl.UntilEndIs` | fs/fat32_impl.c:133-135 | the records looked at are all, or those before the first whose first byte is 0 |
| `FatDirImpl.ReaddirIndex` | fs/fat32_impl.c:107-186 | entry number index among the visible entries before the end mark, its name parts as stored, or -ENOENT |
| `FatDirImpl.FindEntry` | fs/fat32_impl.c:189-266 | the first such entry whose name, cut at spaces, matches but for case, or -ENOENT |
| `FatDirImpl.ListingsAgreeIff` | fs/fat32_impl.c:133-135 | the two implementations list the same entries if and only if nothing visible follows a record never used |
| `FatDirImpl.NamesAgreeIff` | fs/fat32_impl.c:229-241 | the two readable names are equal but for case if and only if no space lies inside a part |
| `FatDirImpl.SearchesAgree` | fs/fat32_impl.c:189-266 | in such directories both searches find the same entry |
| `FatDirImpl.SearchesAgreeIff` | fs/fat32_impl.c:189-266 | the two searches give the same entry, or none, if and only if the first entry either would take has the name for both and comes before the end mark |
| `FatDirImpl.SpacedExample` | fs/fat32_impl.c:229-241 | "A B     TXT" on the disk is A.TXT to one search, and to the other it is not |
| `FatRead.ClampExample` | fs/fat32_vfs.c:82-84 | a count that wraps and reads past the recorded size |
| `FatDir.FindRec` | fs/fat32.c:162-234 | the walk over the clusters finds the first record of the name |
| `FatDirImpl.GapExample` | fs/fat32_impl.c:133-135 | a record never used before a visible entry: one listing shows it, the other does not |
| `FatDirImpl.ListedNameIff` | fs/fat32_impl.c:147-163 | an entry matches the name it is listed under if and only if that name is not padded |
| `FatDirImpl.ListedIsFound` | fs/fat32_impl.c:189-266 | searching for the name an entry is listed under finds that entry if and only if the name is not padded and no earlier entry has it |
| `FatDirImpl.PaddedExample` | fs/fat32_impl.c:154 | A.TXT is listed as "A       .TXT" and not found by that name |
| `SchedModel.LiveAre` | kernel/sched.c:29-33 | the threads not terminated are the current one, the ready and the sleeping ones |
| `SchedModel.YieldInv` | kernel/sched.c:135-166 | a yield keeps the invariant and the set of live threads |
| `SchedTime.YieldGives` | kernel/sched.c:135-166 | a yield with somebody ready runs the head of the list with a whole quantum whatever the current thread's state, puts a RUNNING one at the front, and changes no other slice, state or time |
| `SchedModel.SweepIs` | kernel/sched.c:94-110 | the wake-up sweep keeps exactly the sleepers not due in their order, and wakes the others in reverse |
| `SchedModel.SweepMembers` | kernel/sched.c:94-110 | a sleeper is woken if and only if its time has come |
| `SchedModel.WakeInv` | kernel/sched.c:94-110 | woken threads are READY in the ready list and in the sleep list no more |
| `SchedModel.WakeFromWake` | kernel/sched.c:99-104 | splicing out one due sleeper is one step of the sweep |
| `SchedModel.TickInv` | kernel/sched.c:113-132 | a tick keeps the invariant |
| `SchedModel.SleepInv` | kernel/thread.c:205-213 | sleeping keeps the invariant when the current thread is RUNNING |
| `SchedModel.SleepKeepsIff` | kernel/thread.c:205-213 | and only then: a current thread woken or still asleep may not sleep again |
| `SchedModel.BlockingInv` | kernel/thread.c:205-210 | the marking before the yield keeps the invariant |
| `SchedModel.EndingInv` | kernel/thread.c:128-130 | so does marking the running thread as ended, which takes just it from the live ones |
| `SchedModel.ExitKeepsIff` | kernel/thread.c:125-133 | exit keeps the invariant and takes just the current thread if and only if it is RUNNING |
| `SchedModel.ExitAsleep` | kernel/thread.c:125-133 | a current thread that sleeps and then exits is left ended in the sleep list, and the sweep makes it READY again |
| `SchedModel.ExitAsleepReached` | kernel/thread.c:125-133 | such a state is reached by adding one thread and starting |
| `SchedModel.ExitInv` | kernel/thread.c:125-133 | exit keeps the invariant and removes just the exiting thread |
| `SchedModel.AddInv` | kernel/sched.c:44-50 | adding keeps the invariant and adds just the new thread |
| `SchedModel.StepInv` | kernel/sched.c:44-166 | every enabled step, the yield of sleep and exit taken as a call or as a tick, keeps lists duplicate-free, states matching lists, and the live set changing only by add and exit |
| `SchedModel.RunInv` | kernel/sched.c:44-166 | the same over every run of add, yield, tick, sleep, exit and start |
| `SchedYield.SleepTickKeepsIff` | kernel/thread.c:186-214 | sleep, its yield taken as a tick, keeps the invariant if and only if the current thread is RUNNING, or READY at the head of the ready list, picked by this tick and due by it |
| `SchedYield.WokenAtOnce` | kernel/sched.c:113-132 | in that one case the tick is the sweep of an unchanged state |
| `SchedYield.ExitTickKeepsIff` | kernel/thread.c:125-188 | exit, its yield taken as a tick, keeps the invariant and takes just the current thread if and only if it is RUNNING |
| `SchedTime.QuantumBound` | kernel/sched.c:113-132 | under ticks with preemption and a ready thread, n mod q ticks of the slice are used after n, and the current thread changes exactly at multiples of q |
| `SchedTime.SwitchFresh` | kernel/sched.c:113-166 | any step but sched_start that changes the current thread, yield, tick, sleep or exit in either form, leaves it RUNNING with its whole quantum |
| `SchedTime.QuantumAfterSwitch` | kernel/sched.c:113-166 | so after any such switch with somebody ready, every thread runs for exactly a quantum |
| `SchedTime.BootSettings` | kernel/sched.c:36-37 | in every run from sched_init preemption is on and the quantum is 5 |
| `SchedTime.BootQuantum` | kernel/sched.c:113-197 | in every run from sched_init, after any such switch the current thread changes with every fifth tick and no other while somebody is ready |
| `SchedTime.EarlierFirst` | kernel/sched.c:86-110 | of two sleepers due at once the one that went to sleep first comes first in the ready list |
| `SchedTime.SliceKept` | kernel/sched.c:113-166 | the current thread's slice is within 1..quantum between steps, kept by every step and set by every switch but sched_start |
| `SchedTime.StartSliced` | kernel/sched.c:217-225 | sched_start runs a thread with the slice it has: within the quantum if and only if it already was |
| `SchedTime.PairRun` | kernel/sched.c:44-83 | with nobody asleep, in every run of ticks and yields only two threads ever run |
| `SchedTime.FairIff` | kernel/sched.c:44-83 | so every ready thread gets to run if and only if there is one: this is not the round robin docs/architecture.md:20 names |
| `SchedTime.UnfairExample` | kernel/sched.c:44-83 | three threads started in turn: the first never runs |
| `SchedTime.WokenWhileCurrent` | kernel/sched.c:94-140 | a thread that sleeps with nobody ready stays current while blocked, and is put into the ready list while still current exactly when its time comes |
| `Sched.WithoutAt` | kernel/sched.c:52-71 | removal takes out just that one entry |
| `Sched.Scheduler.constructor` | kernel/sched.c:169-197 | sched_init: empty lists, no current thread, quantum 5, preemption on |
| `Sched.Scheduler.AddThread` | kernel/sched.c:44-50 | the linked ready list gets the thread at its front |
| `Sched.Scheduler.PickNext` | kernel/sched.c:74-83 | the head leaves the linked list |
| `Sched.Scheduler.RemoveThread` | kernel/sched.c:52-71 | the thread is spliced out wherever it is, and nothing happens when it is not there |
| `Sched.Scheduler.AddSleeping` | kernel/sched.c:86-91 | the linked sleep list gets the thread at its front |
| `Sched.Scheduler.CheckSleeping` | kernel/sched.c:94-110 | the pointer-to-link splice is the sweep of the model, on lists, states and links |
| `Sched.Scheduler.Yield` | kernel/sched.c:135-166 | sched_yield on the links is the model's yield and keeps the invariant |
| `Sched.Scheduler.Tick` | kernel/sched.c:113-132 | the tick is the model's tick and keeps the invariant |
| `Sched.Scheduler.Create` | kernel/thread.c:88-122 | a new thread is READY at the front of the ready list |
| `Sched.Scheduler.Sleep` | kernel/thread.c:205-213 | sleep on the links is the model's sleep and keeps the invariant |
| `Sched.Scheduler.Exit` | kernel/thread.c:125-133 | exit of any current thread on the links is the model's exit, and keeps the invariant for a RUNNING one |
| `Sched.Scheduler.SleepTick` | kernel/thread.c:186-214 | sleep when the interrupt thread_yield raises is a tick |
| `Sched.Scheduler.ExitTick` | kernel/thread.c:125-188 | exit when the interrupt thread_yield raises is a tick |
| `Sched.Scheduler.Start` | kernel/sched.c:210-233 | sched_start on the links is the model's start and keeps the invariant |
| `KbdModel.LetterCase` | drivers/keyboard/keyboard.c:16-44 | exactly the letter codes have letters in the table, and they give upper case if and only if one of caps lock and shift is on |
| `KbdModel.DigitRow` | drivers/keyboard/keyboard.c:16-25 | codes 2 to 13 give 1234567890-= and with shift !@#$%^&*()_+ |
| `KbdModel.LetterRows` | drivers/keyboard/keyboard.c:16-37 | the letter codes give qwertyuiop, asdfghjkl, zxcvbnm, in upper case if and only if one of caps lock and shift is on |
| `KbdModel.OtherKeys` | drivers/keyboard/keyboard.c:16-44 | every other code: Escape, Backspace, Tab, Enter, star, space, nine keys of punctuation with and without shift, and nothing for the rest |
| `KbdModel.ExtendedKeys` | drivers/keyboard/keyboard.c:72-82 | after the prefix exactly the codes of the arrows, Home, End and Delete give a key, 0x101 to 0x107 |
| `KbdModel.KeyOf` | drivers/keyboard/keyboard.c:60-108 | a scancode gives a key exactly when it is a press with a character, or after the prefix an extended one |
| `KbdModel.ModsAre` | drivers/keyboard/keyboard.c:60-95 | after any scancodes a shift flag is set exactly when its key is down, caps lock is the parity of its presses, and a prefix waits exactly after 0xE0 |
| `KbdModel.PushIs` | drivers/keyboard/keyboard.c:48 | a push appends to the queue, unless 127 keys wait |
| `KbdModel.AdvanceIs` | drivers/keyboard/keyboard.c:50 | reading at the tail and moving it takes the oldest key |
| `KbdModel.NextInv` | drivers/keyboard/keyboard.c:48-50 | an interrupt or a reader's micro-step keeps: accepted = delivered + waiting, and a reader past its read holds the oldest key |
| `KbdModel.RunDelivers` | drivers/keyboard/keyboard.c:48-108 | for every interleaving the delivered keys are a prefix of the accepted ones, and the keys decoded are what the scancodes mean |
| `KbdModel.RunGrows` | drivers/keyboard/keyboard.c:48-50 | no key is delivered twice or taken back |
| `KbdModel.DropIff` | drivers/keyboard/keyboard.c:48 | a key is dropped if and only if 127 accepted ones are undelivered |
| `KbdModel.NothingLost` | drivers/keyboard/keyboard.c:48-108 | while the ring has not been full, delivered and waiting keys are all the keys typed, in order |
| `KbdModel.EmptyIff` | drivers/keyboard/keyboard.c:50 | the reader reports no key if and only if all accepted keys have been delivered |
| `Keyboard.Driver.constructor` | drivers/keyboard/keyboard.c:46 | keyboard_init: an empty queue and no modifiers |
| `Keyboard.Driver.PushKey` | drivers/keyboard/keyboard.c:48 | push_key on the array appends to the queue or drops |
| `Keyboard.Driver.GetKeyNonblock` | drivers/keyboard/keyboard.c:50 | the oldest key leaves the queue, or -1 when it is empty |
| `Keyboard.Driver.GetCharNonblock` | drivers/keyboard/keyboard.c:52-58 | a key that is no character is taken and lost, with the same -1 as an empty queue |
| `Keyboard.Driver.IrqHandler` | drivers/keyboard/keyboard.c:60-108 | one scancode changes the modifiers and the queue as its meaning says |
| `Bits.SetBitOf` | memory/pmm.c:17 | bitmap[f>>5] |= 1u << (f&31) sets bit f and no other |
| `Bits.ClearBitOf` | memory/pmm.c:18 | bitmap[f>>5] &= ~(1u << (f&31)) clears bit f and no other |
| `Bits.TestIs` | memory/pmm.c:19 | the mask test is the bit |
| `FrameModel.InRegionIs` | memory/pmm.c:113-118 | the frames marked for a region are those that share a byte with it |
| `FrameModel.AvailableIff` | memory/pmm.c:46-50 | an entry counts if and only if its type is 1, it is not empty, does not wrap 64 bits, and starts below 4 GB less one |
| `FrameModel.OfferedIs` | memory/pmm.c:46-57 | the frames an entry below 4 GB offers are those that end inside it |
| `FrameModel.OfferedWholeIff` | memory/pmm.c:51-57 | they all lie inside it if and only if it starts on a border of frames, or offers none |
| `FrameModel.BasicFramesIs` | memory/pmm.c:86-94 | (1024 + upper KB) / 4 frames, 32768 at most, as long as the size fits 32 bits |
| `FrameModel.Highest` | memory/pmm.c:51-52 | the highest frame index is the largest end of an available entry |
| `FrameModel.AllocIs` | memory/pmm.c:126-135 | the address returned is that of the lowest free frame, held by nobody, not reserved, above 1 MB; it is 0 if and only if every available frame is used |
| `FrameModel.AllocInv` | memory/pmm.c:126-135 | an allocation conserves used frames plus clear bits |
| `FrameModel.FreeInv` | memory/pmm.c:137-143 | freeing a held frame conserves them and makes just that frame free |
| `FrameModel.FreeAnyIff` | memory/pmm.c:137-143 | freeing any address keeps the invariant if and only if its frame is held, or past the searched frames, or not marked, or neither held nor reserved while some used frame is not held |
| `FrameModel.FreeLowExample` | memory/pmm.c:137-143 | freeing address 0 breaks it |
| `FrameModel.RunConserves` | memory/pmm.c:126-143 | over every run used frames plus clear bits equal the frames available at the start, and used frames follow the held ones |
| `FrameModel.InitInv` | memory/pmm.c:31-101 | the state initialisation leaves satisfies the invariant with the first megabyte and the kernel reserved |
| `FrameModel.PastBitmapIff` | memory/pmm.c:50-57 | the frames of an available entry stay inside the bitmap if and only if it ends by 128 MB or has no whole frame; otherwise the first past it is named |
| `FrameModel.PastBitmapExample` | memory/pmm.c:50-57 | an entry whose frame at 128 MB is bit 0 of word 1024 of 1024 |
| `FramePool.Pmm.ReserveRange` | memory/pmm.c:21-28 | marks the frames of the range and counts those that were free |
| `FramePool.Pmm.MarkUsedRegion` | memory/pmm.c:113-124 | marks exactly the frames of the region and counts those that were free |
| `FramePool.Pmm.FreeRegions` | memory/pmm.c:45-60 | clears exactly the frames of available entries and finds the highest |
| `FramePool.Pmm.Init` | memory/pmm.c:31-81 | after pmm_init the bits are clear exactly for offered frames outside the first megabyte and the kernel, and conservation starts from the number offered |
| `FramePool.Pmm.InitBasic` | memory/pmm.c:84-101 | the same for pmm_init_basic, whose total_frames shadows the static one |
| `FramePool.Pmm.InitDefault` | memory/pmm.c:104-110 | 64 MB when no size is given, and no kernel image |
| `FramePool.Pmm.AllocFrame` | memory/pmm.c:126-135 | the search on the bitmap words is the model's allocation |
| `FramePool.Pmm.FreeFrame` | memory/pmm.c:137-143 | freeing on the bitmap words is the model's free |
| `BlockModel.Pigeonhole` | kernel/pmm.c:31-39 | with an exact count, a block is left if and only if the lowest clear bit is below the number of blocks, however far the bitmap goes on |
| `BlockModel.AllocIs` | kernel/pmm.c:30-52 | takes the lowest clear block and only it and keeps the count exact; fails exactly when the count is full |
| `BlockModel.NullIff` | kernel/pmm.c:32-51 | NULL is returned if and only if no block is free or block 0 has just been taken |
| `BlockModel.NullExample` | kernel/pmm.c:32-51 | one free block, handed out with the address that says there is none |
| `BlockModel.FreeIs` | kernel/pmm.c:55-68 | frees exactly a used block that exists, and keeps the count exact |
| `BlockModel.FreeUndoes` | kernel/pmm.c:30-68 | freeing what was just allocated restores the state |
| `BlockModel.RunExact` | kernel/pmm.c:30-68 | whatever is allocated and whatever addresses are freed, the count stays exact |
| `BlockPool.Pmm.Alloc` | kernel/pmm.c:30-52 | the word-skipping search refines the linear search for the lowest clear bit |
| `BlockPool.Pmm.FindBit` | kernel/pmm.c:39-47 | the inner loop finds the lowest clear bit of the word |
| `BlockPool.Pmm.Free` | kernel/pmm.c:55-68 | freeing on the words is the model's free |
| `ConsoleModel.PutValid` | kernel/console.c:62-85 | the cursor stays inside 80x25 after every character |
| `ConsoleModel.PutCell` | kernel/console.c:62-85 | which cell a character changes, with and without a scroll |
| `ConsoleModel.CursorNext` | kernel/console.c:62-80 | newline, carriage return, tab to the next multiple of 8, printable characters and the wrap after column 79, and nothing for the rest, on the cursor of the page |
| `ConsoleModel.LineCursor` | kernel/console.c:62-80 | after a newline a line starts at column 0 of the next row, after a carriage return at column 0 of the same |
| `ConsoleModel.GlyphIs` | kernel/console.c:70-74 | the high byte of a cell is the attribute, the low byte the character, 32 in a blank one |
| `ConsoleModel.ScreenIsPage` | kernel/console.c:62-85 | after any characters in any attributes the screen is the last 25 rows of the endless page they make, and the cursor is where the page has it |
| `ConsoleModel.PlainCursor` | kernel/console.c:70-80 | n printable characters leave the cursor in row n / 80, column n % 80 |
| `ConsoleModel.PlainPage` | kernel/console.c:70-80 | character n of a printable text stands in row n / 80, column n % 80 of the page |
| `Console.Terminal.Clear` | kernel/console.c:28-37 | the two loops leave an empty page |
| `Console.Terminal.Scroll` | kernel/console.c:40-59 | the copying loops move every line up and blank the last |
| `Console.Terminal.Putc` | kernel/console.c:62-85 | console_putc writes the next character of the page and the screen shows the page |
| `Console.Terminal.SetAttr` | kernel/console.c:95-97 | a new attribute leaves the page and the screen as they are |
| `Console.Terminal.Puts` | kernel/console.c:88-92 | console_puts writes the characters in order |
| `PageModel.SamePage` | arch/x86/x86/memory/paging.c:51-52 | the two indices together are the page number |
| `PageModel.MaskIsBase` | arch/x86/x86/memory/paging.c:64-66 | & ~0xFFF is the page-aligned base |
| `PageModel.MaskIsIndex` | arch/x86/x86/memory/paging.c:51-52 | the shifts and masks are the directory and table index |
| `PageModel.OrFlags` | arch/x86/x86/memory/paging.c:24-35 | the ORed flags are the entry's flag bits |
| `PageModel.InitialIs` | arch/x86/x86/memory/paging.c:19-35 | after paging_init: identity below 4 MB, 0xC0000000+k to 4 MB+k for k below 1 MB, with their permissions, and nothing else |
| `PageModel.MapPageIs` | arch/x86/x86/memory/paging.c:50-68 | mapping a page sets its translation and leaves every other address's |
| `PageModel.MapAllIs` | arch/x86/x86/memory/paging.c:50-68 | any sequence of mappings is the update of one map from page numbers to frames |
| `PageModel.NewTableIff` | arch/x86/x86/memory/paging.c:57-60 | a new page table's entry leads back to the table if and only if its address is page-aligned |
| `PageModel.NewTableExample` | arch/x86/x86/memory/paging.c:57-60 | the first pointer kmalloc returns is such an address |
| `Paging.PageTables.constructor` | arch/x86/x86/memory/paging.c:19-35 | the loops of paging_init fill the three tables as stated |
| `Paging.PageTables.MapPage` | arch/x86/x86/memory/paging.c:50-68 | paging_map_page on the arrays is the model's mapping, for every address |

## Left out

- Heap growth: what kmalloc does after storing a header past the mapped heap (outcome `Fault`); `kcalloc`, `kmalloc_a`, `kmalloc_ap` add nothing to kmalloc.
- KHeap.KernelHeap.Kfree: a pointer into the heap must be a block's, live or free; the C code takes the 12 bytes before any other for a header too.
- KHeap.KernelHeap.Krealloc: p must be NULL or a live block, as the C code assumes when it reads the header before the pointer.
- VfsClient.ReadAllBytes: the node found must have a name and its bytes inside the image, as `VfsClient.FoundFile` shows for archives.
- ArchiveView.ArchiveRoundTrip: archives are images whose prefix fields are empty, the only ones whose paths the mount reads as the format gives them (`Archive.FormatNameIff`). Headers the writer makes leave magic, checksum, owner and times zero, which the mount never reads.
- ArchiveView.BuildStands: entries whose names have a component "." or ".." (but for one "./" in front) are outside the view of the tree, though not outside `Archive.MountBuilds`; ensure_dir makes directories of these names, which lookup cannot reach (`DirLookup.DotExample`).
- Allocation failure in the initrd mount, and -EIO of tar_read without an image: nodes are always allocated.
- InitrdFs.Initrd.MountInitrd: the image must let the loop finish (`Marches`): a size field that makes the 32-bit offset stick or wrap, or a name that runs off the image, is outside the model. Images of archives always let it finish (`Archive.MountBuilds`).
- vfs_lookup copies nodes; the model hands out the node, and a descriptor holds a copy of its fields. Symbolic links and `finddir` are left out: initrd trees have no links, and tar_finddir always fails.
- VfsFiles.Vfs.Open: O_RDONLY only; creation, truncation, writing, mkdir, remove and mounts other than the root edit copies of nodes and keep no law worth stating.
- FAT32: disk errors (-EIO), allocation failure (-ENOMEM), use before initialisation and NULL arguments (-EINVAL), the boot sector's signature check, the wrap of sector numbers past 2^32, and sector sizes other than 512 bytes. Writing is a stub in the source.
- FatRead.ReadFileWindow: FAT entries must agree with and without their top four bits, and the volume's clusters fit its FAT; `FatModel.AgreeIff` says exactly which entries do.
- FatRead.ReadFileData: offset plus one cluster must not wrap 32 bits unless the chain ends before the offset (`Skips`); otherwise the skip loop's 32-bit sum runs past the offset. The same holds for `FatRead.FilePriv.Read`.
- FatDir.ReaddirIndex: the directory's chain must end or the entry come before its cycle closes; otherwise the C code loops for ever. The same holds for `FatDir.FindEntry` and, with the end mark, for the searches of `FatDirImpl`. The file readers need no such condition. Chains that run into a free entry end there for the searches and for fs/fat32_impl.c; fs/fat32.c would read a cluster 0, and its reader asks for chains that do not (`FatModel.Closed`).
- thread_yield raises interrupt 0x20, the timer's. The model takes the yield after a sleep or an exit either as sched_yield itself (`Sleep`, `Exit`) or as a timer tick (`SleepTick`, `ExitTick`), and keeps its invariants over runs of both.
- A context switch is one atomic change of the current thread: stacks, the TSS, and that the rest of sched_tick runs on the new thread or later are not modelled. Time slices are unbounded integers.
- Sched: `sched_switch` does not take its thread off the ready list, and the thread list of kernel/thread.c shares the `next` field and keeps its own current thread; sleep and exit are steps on the scheduler's current thread instead. Joins, processes, and the conversion of milliseconds to the wake-up tick are left out.
- `scheduler_set_quantum` and `scheduler_set_preempt`: the quantum and the preemption flag are fixed along a run. sched_start is a step only before any thread is current, as at boot.
- Sched.Scheduler.Sleep: enabled only for a RUNNING current thread; `SchedModel.SleepKeepsIff` says that otherwise the lists break.
- Sched.Scheduler.Exit: keeps the invariant only for a RUNNING current thread, and the runs of `SchedModel.RunInv` exit only such threads, though thread_exit takes any; `SchedModel.ExitKeepsIff` says that otherwise the step breaks the lists or leaves the thread alive.
- Sched.Scheduler.ExitTick: for a RUNNING current thread only, as `Sched.Scheduler.SleepTick`.
- Keyboard port input and the serial log: the scancode is a parameter of the handler.
- FramePool.Pmm.Init: available regions must end below 128 MB and the kernel image lie there; beyond, the C code indexes past its bitmap (`FrameModel.PastBitmapIff`). The walk over boot loader tags is reduced to the list of entries.
- FrameModel.RunConserves: frees are of held frames; `FrameModel.FreeAnyIff` says which others are harmless.
- BlockPool.Pmm.constructor: kernel/pmm.c never sets up its bitmap, so the model starts from any bitmap in place.
- Console cursor setting, colours by name, and number printing.
- Paging.PageTables.MapPage: only for present directory entries. The branch that allocates a page table uses kmalloc's virtual address, header offset and all, as a page-aligned physical one (`PageModel.NewTableIff`). CR3, TLB flushes and 4 MB pages are left out.
- Drivers for disk, serial line and VGA, interrupt tables, ACPI, ELF loading, system calls, GUI, shell and printf.
