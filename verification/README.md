# antemOS storage, memory and i386 code generation: a verified model

A Dafny model of two parts of the repository, with proofs about all inputs and all runs.

**The kernel core (`kernel.c`).** The ext2 engine is modelled down to the bytes of directory blocks, pointer blocks and
bitmaps: first-fit allocation, the tree of 12 direct, 256 single and 65536 double indirect blocks, record chains, the
path walk, and the calls write, mkdir, read, copy, delete and recursive rmdir as methods of a class whose fields are the
mounted volume. The heap is a list of headers linked through memory; the frame allocator is a bitmap array; launching,
demand paging and the four ways an app dies act on page tables and that bitmap; the scheduler's loop and the `vfs_lock`
protocol are modelled as steps.

**The TCC i386 back end (`am-tcc/`).** Lists of jumps threaded through the code bytes, conditions held as pending jumps,
`gen_opi`, ModRM/SIB encoding, branch sizes, relocation and the PLT, and the inline-assembly register allocator. Meaning is
given by a small instruction decoder and interpreter written after the Intel Software Developer's Manual, volume 2
(`X86.dfy`), and by a decoder for memory operands after its section 2.1.5 of volume 2A (`ModRM.dfy`).

## Layout

| files | subject |
|---|---|
| `Bytes`, `Bitmap` | little-endian words, allocation bitmaps |
| `BlockTree`, `Allocation`, `DoubleStage`, `TreeAssembly`, `Copying` | the block tree as reader, writer, destroyer and copier see it |
| `RecordChain`, `DirBlock` | a directory block as a chain of records and as a map from names to inodes |
| `VolumeState`, `Growth`, `Shrink`, `Wiping`, `Rmdir` | soundness of a volume, and what adding and removing do to it |
| `Paths`, `Volume` | the path walk, and the class `Volume` with the file system calls |
| `Storage` | what a caller sees: bytes in, bytes out, fields of inodes and entries |
| `FileLaws`, `FileRuns` | what the calls mean for each other, and whole runs of calls |
| `Damage`, `DotRun`, `SectorLimits`, `TornRun` | changes no choice of live inodes repairs, two runs that make one, and when exactly a call does |
| `HeapBlocks`, `Heap` | `kmalloc`, `kfree`, and the DMA twins |
| `Frames`, `FrameOwnership`, `AppMemory` | physical frames, who maps them, launching, paging and dying |
| `Scheduler`, `DiskLock` | round robin, and mutual exclusion on the disk |
| `JumpList`, `X86`, `Lowering`, `CodeGen` | pending jumps, the processor, the code of conditions |
| `IntegerOps`, `ModRM`, `Branches`, `Relocation` | arithmetic, operands, branches, linking |
| `RegisterChoice`, `AsmConstraints` | registers for inline assembly |
| `DynArrays`, `ArgvParser` | growing arrays, splitting a command string |

How to read the volume: `Sound(v, live)` says that every block of every live inode is marked used and owned once, that
directories are well formed, name live inodes only, and form a tree. Each call has an outcome predicate (`WriteOutcome`,
`MkdirOutcome`, `DeleteOutcome`, `RmdirOutcome`, `CopyOutcome`) that lists its return values and state changes case by case;
the methods establish it, and the lemmas of `FileLaws` and `FileRuns` draw the consequences.

## What the code does that one might not expect

These follow from the code as it is; each is stated exactly by the members named.

- A write of size 0 makes a file of 1 byte, and one of more than 67383296 bytes is cut there and still returns 1 (`FileSize`).
- A write on a volume that is too full still returns 1. Reading back gives the bytes written exactly when there was room for
  data and pointer blocks (`TreeAssembly.ReadBackIff`, `FileLaws.WriteThenRead`), and `i_blocks` is right exactly then
  (`FileLaws.WriteCountsBlocks`). Deleting such a file still gives the bitmap back (`TreeAssembly.WriteThenFree`).
- When the inode bitmap is full, a write returns 0 but keeps the blocks it took; the volume stays sound (`Growth.LeakedSound`).
- Only the first sector of a directory block is written back, and delete and rmdir read only that one
  (`DirBlock.InsertReachesDiskIff`, `DirBlock.InsertLost`, `DirBlock.DeleteSees`).
- The slack test leaves 20 bytes, enough for names of up to 12 and no more (`FileLaws.TightSlackFitsIff`).
- A name longer than 255 characters is cut into several by the path walk (`Paths.ComponentsIff`).
- Removing a directory by `.` or `..` breaks the volume beyond repair, and that is the only way an rmdir can
  (`Ext2Volume.RmdirSoundIff`); `DotRun.RunByDot` is such a run.
- A new entry that would reach past the first sector of its directory tears the directory block apart
  (`SectorLimits.WriteSoundIff`, `SectorLimits.MkdirSoundIff`; `TornRun.RunByLength` is such a run); with blank second
  sectors nothing else a write or mkdir does can break the volume.
- A path longer than 255 characters is cut for the write but not for the lookup: the new file is found under the first 255
  characters (`FileLaws.WriteThenRead`).
- A request to `kmalloc` above 0xFFFFF000 rounds to 0 and gets an empty block (`HeapBlocks.Rounded`); the DMA allocator looks at
  the start of each free block only (`HeapBlocks.DmaFailsIff`), so when empty it refuses 128 KB (`HeapBlocks.DmaOverlooks`), and never serves more than 131072 bytes (`HeapBlocks.DmaLimit`).
- A page fault on a page that has a frame would strand that frame (`FrameOwnership.MapKeepsIff`).
- Running out of memory inside a system call on the disk leaves the disk locked for good, unless the kernel is already past its
  own look at the lock (`DiskLock.OutOfMemoryWedgesIff`, `DiskLock.WedgeRun`).
- In inline assembly, early-clobber and read-write marks on a register variable go unseen (`AsmConstraints.PinnedSharesIff`, `AsmConstraints.PinnedShares`), and a
  reference to a reference gets no register (the predicate `RefFilled` in `AsmConstraints.Sound`).
- esp cannot be encoded as an index register, and `asm_modrm` does not look (`ModRM.RoundTripIff`).

## Model

| member | source | states |
|---|---|---|
| Ext2Volume.TakeLowest | kernel.c:3554-3642 | the scan both allocators share takes the lowest clear bit and sets it, or returns 0 exactly when every bit is set |
| Ext2Volume.Volume.AllocateBlock | kernel.c:3554-3597 | one block allocation changes the block bitmap as `Taken` says and nothing else |
| Ext2Volume.Volume.AllocateInode | kernel.c:3600-3642 | the same for the inode bitmap |
| Ext2Volume.Volume.FreeBlock | kernel.c:4317-4329 | clears exactly the bit of the block; block 0 is ignored |
| Allocation.FailsIffTooFew | kernel.c:3554-3597 | in a run of allocations some call fails if and only if there are fewer free blocks than calls |
| Allocation.AllocatedConcat | kernel.c:3985-4036 | two runs of allocations one after the other are one run: no block twice, and the bitmap is the union |
| Allocation.FreeUndoesAllocate | kernel.c:4467-4503 | freeing a run of allocations in any order gives the old bitmap back byte for byte |
| BlockTree.CapIsReach | kernel.c:3955-3969 | the size cap is exactly 65804 blocks, the reach of the tree, and the master index stays below 256 |
| BlockTree.PosInjective | kernel.c:3985-4036 | in the order of allocation no two logical blocks share a position, and none takes that of a pointer block |
| BlockTree.WalkAgrees | kernel.c:3675-3700 | for every logical block the reader's walk finds the block the writer allocated for it, on volumes that filled up midway too |
| BlockTree.OwnedIsAllocated | kernel.c:4467-4503 | the destroyer's walk visits the writer's blocks, pointer blocks included, exactly once each (equality of multisets) |
| BlockTree.PhysOwned | kernel.c:3675-3700 | every block the reader reaches is one the destroyer frees |
| BlockTree.ReadFrame | kernel.c:4278-4314 | contents depend on the blocks of the tree alone |
| Ext2Volume.Volume.WriteDirect | kernel.c:3985-3993 | the direct stage: which blocks are taken, what they hold, and that blocks in use are not written |
| Ext2Volume.Volume.WriteLeaves | kernel.c:3998-4004 | the inner loop of both indirect stages, with the entries behind the last one zero |
| Ext2Volume.Volume.WriteIndirect | kernel.c:3995-4007 | a pointer block allocated before its leaves and written after them; a failed allocation leaves block 0 zeroed |
| Ext2Volume.Volume.WriteDouble | kernel.c:4009-4036 | the double indirect stage keeps `DoubleInv` over its two nested loops |
| Ext2Volume.Volume.BuildTree | kernel.c:3985-4036 | the three stages together build the tree of `TreeBuilt` for 1 to 67383296 bytes |
| TreeAssembly.AssembleBig | kernel.c:4009-4036 | the pieces of a three-stage write form one tree over one sequence of allocations |
| TreeAssembly.ReadBackIff | kernel.c:3985-4036 | reading the new tree gives the content back if and only if the blocks it needs were free |
| TreeAssembly.BlocksHold | kernel.c:3985-4036 | with room, every byte of every data block is the content's and the rest of the last block is zero |
| TreeAssembly.BuiltOwned | kernel.c:4467-4503 | the destroyer's list of a new file has no repetition and is what was allocated |
| TreeAssembly.BuiltSizeIff | kernel.c:4059-4068 | the file owns as many blocks as the write counts if and only if there was room for them |
| TreeAssembly.WriteThenFree | kernel.c:4467-4503 | freeing a new file's blocks gives the block bitmap of before the write |
| RecordChain.FindIsLookup | kernel.c:4399-4423 | the linear search hits exactly when the name is in the map the chain stands for, at a record with that name |
| RecordChain.NamesAreUnique | kernel.c:3925-3952 | in a chain without duplicates a name determines its record |
| RecordChain.SplitRefines | kernel.c:4081-4100 | splitting a record adds exactly one name to the map and keeps the chain |
| RecordChain.MergedRefines | kernel.c:4445-4458 | merging a record into its predecessor removes exactly its name |
| DirBlock.FindEntry | kernel.c:3765-3791 | the walk over the bytes of a block returns the search result of its chain |
| DirBlock.ScanForSlot | kernel.c:3925-3952 | the scan stops at a duplicate, otherwise remembers the last record with slack |
| DirBlock.SlotIsSlack | kernel.c:3942-3949 | the remembered record has slack whenever any record has |
| DirBlock.SlotIsLast | kernel.c:3942-3949 | of all records with slack the scan remembers the last |
| DirBlock.InsertRecord | kernel.c:4081-4100 | the three stores of an insertion, as a function of the old bytes |
| DirBlock.UnlinkRecord | kernel.c:4445-4458 | the stores of an unlink, as a function of the old bytes |
| DirBlock.LookupIsMap | kernel.c:3765-3791 | lookup in a well-formed block is lookup in its map of names |
| DirBlock.InsertRefines | kernel.c:4081-4100 | with room for it, an insertion keeps the block well formed and is the map update with the new name |
| DirBlock.InsertWellFormedIff | kernel.c:4081-4100 | the block stays well formed if and only if the record fits the slack |
| DirBlock.UnlinkRefines | kernel.c:4445-4458 | an unlink keeps the block well formed and removes exactly that name from its map |
| DirBlock.DeleteSees | kernel.c:4392-4423 | the one-sector scan finds a name exactly when its record ends in the first sector |
| DirBlock.UnlinkFirstSector | kernel.c:4445-4461 | unlinking in the first sector and writing it back is the unlink on the whole block |
| DirBlock.InsertKept | kernel.c:4100 | an insertion that ends in the first sector reaches the disk completely |
| DirBlock.InsertLost | kernel.c:4100 | an insertion behind a record in the second sector leaves the disk as it was |
| DirBlock.InsertReachesDiskIff | kernel.c:4100 | with a blank second sector, the new name is on disk if and only if its record ends in the first |
| DirBlock.WrittenWellFormedIff | kernel.c:4081-4100 | with a blank second sector, the block on disk stays well formed if and only if the record fits the slack and ends in the first sector |
| DirBlock.FreshDirNames | kernel.c:4215-4231 | the block of a new directory is well formed and its map is "." and ".." |
| Paths.ComponentsIff | kernel.c:3705-3760 | the names the walk looks up are the non-empty pieces between slashes if and only if none is longer than 255 |
| Paths.StepIsMap | kernel.c:3760-3803 | on a sound volume one step of the walk is lookup in the directory's map |
| Paths.ResolveLive | kernel.c:3705-3803 | a path leads to a live inode or nowhere |
| Paths.SplitPath | kernel.c:3861-3885 | the loop that finds the last slash computes the split of the first 255 characters |
| Paths.ResolveSplit | kernel.c:3705-3803 | resolving a path is resolving its parent and looking the last name up there |
| Ext2Volume.Volume.ResolvePath | kernel.c:3705-3803 | the walk is the fold of one step over the names of the path |
| Ext2Volume.Volume.ReadFile | kernel.c:4278-4314 | the buffer starts with the file's content, cut to the smaller of size and buffer; one NUL behind it if there is room; every other byte is as before; the size is the full one |
| Ext2Volume.Volume.Stream | kernel.c:4297-4311 | the block loop delivers the bytes of the tree up to the size, stopping at a missing block |
| Ext2Volume.Volume.StoreFile | kernel.c:3955-4100 | inode, tree and entry of a new file; fails exactly when the inode bitmap is full, then only blocks are lost |
| Ext2Volume.Volume.WriteFile | kernel.c:3860-4103 | every return value of a write with the state it leaves (`WriteOutcome`); what it stores is `Storage.StoresBytes` |
| Ext2Volume.Volume.StoreDir | kernel.c:4210-4272 | inode, block and entry of a new directory; fails exactly when a bitmap is full |
| Ext2Volume.Volume.MakeDirectory | kernel.c:4108-4273 | every return value of a mkdir with the state it leaves (`MkdirOutcome`) |
| Ext2Volume.Volume.FreeTree | kernel.c:4467-4503 | direct, single and double indirect blocks: exactly the bits of the inode's blocks are cleared |
| Ext2Volume.Volume.DropFile | kernel.c:4443-4517 | unlink, one sector, blocks and inode bit: exactly the name and the file are gone |
| Ext2Volume.Volume.DeleteFile | kernel.c:4332-4518 | every return value of a delete with the state it leaves (`DeleteOutcome`) |
| Ext2Volume.Volume.WipeEntries | kernel.c:4558-4589 | the scan wipes everything named by the directory's first block |
| Ext2Volume.Volume.WipeInode | kernel.c:4526-4640 | the recursion ends on any acyclic tree and clears the bits of exactly the inode and everything below it |
| Ext2Volume.Volume.DropDir | kernel.c:4742-4759 | unlink and wipe: exactly the subtree is gone; by "." or ".." exactly what `Gutted` lists, both bitmaps included |
| Ext2Volume.Volume.RemoveDirectory | kernel.c:4643-4760 | every return value of an rmdir with the state it leaves (`RmdirOutcome`) |
| Ext2Volume.Volume.CopyFile | kernel.c:4765-4831 | every return value of a copy with the state it leaves (`CopyOutcome`) |
| VolumeState.OwnKept | kernel.c:4100 | when only a directory block changes, no live inode gains or loses a block |
| VolumeState.ContentKept | kernel.c:4100 | and every other intact file keeps its contents |
| VolumeState.KindIff | kernel.c:3753-3754 | directory and regular file by the four highest bits of the mode |
| Growth.FileAddedSound | kernel.c:3955-4103 | after a write the volume is sound with one more inode, one directory has one more name, and nothing else changed |
| Growth.DirAddedSound | kernel.c:4210-4272 | the same after a mkdir, and the new directory holds itself and its parent |
| Growth.LeakedSound | kernel.c:4043-4044 | allocations that no entry ever names leave the volume sound |
| Shrink.OutsideGone | kernel.c:4526-4640 | the subtree behind a name reaches neither the directory holding the name nor the root |
| Shrink.NoDangling | kernel.c:4526-4640 | no directory that stays names a removed inode |
| Shrink.RemovedSound | kernel.c:4332-4518 | after a removal the volume is sound and every directory and inode that stays is as it was |
| Rmdir.WipedSubtree | kernel.c:4526-4640 | what the recursion wiped is the subtree of the volume as it was before the call |
| Damage.AboveStays | kernel.c:3705-3803 | when one directory changes, every directory at or above it stays live in any sound reading of the new volume |
| Damage.BrokenDir | kernel.c:4100 | a directory whose records no longer form a chain leaves a volume that is sound for no set of inodes |
| Rmdir.DotsSubtree | kernel.c:4526-4640 | what an rmdir by ".." wipes is the subtree of the parent as it was before the call |
| Rmdir.DotsBreak | kernel.c:4643-4760 | a directory removed by "." or ".." stays named by its parent while its inode is free: the volume is sound for no set of inodes |
| Ext2Volume.RmdirSoundIff | kernel.c:4643-4760 | a successful rmdir keeps the volume sound if and only if the last name is neither "." nor ".."; otherwise no set of inodes makes it sound |
| DotRun.DotRunBreaks | kernel.c:4643-4760 | on the empty volume, mkdir "/a" and then rmdir "/a/." both return 1 and leave a volume that is sound for no set of inodes |
| DotRun.RunByDot | kernel.c:4643-4760 | that run, made with the methods |
| Copying.CopyAll | kernel.c:4803-4823 | the copy loop leaves every leaf of the target with the source's bytes and changes no other block |
| Copying.CopyBuilt | kernel.c:4803-4823 | afterwards the target is the tree a write of the source's bytes would have built |
| Copying.CopyReadsIff | kernel.c:4803-4823 | a complete source reads the same through the target if and only if there was room for all its blocks |
| FileLaws.WriteThenRead | kernel.c:3860-4103 | after a write the first 255 characters of the path lead to the file, everything else is as before, and reading returns the bytes if and only if there was room |
| Storage.StoresBytes | kernel.c:3955-4072 | with room, the new inode has the size asked for (at least 1, at most 67383296), mode 0644 and one link, and the file holds the caller's bytes one by one, or zeros for NULL |
| Storage.StoreFile | kernel.c:3860-4103 | the same for the method: a write into a directory with room returns 1 and the path leads to a file with the caller's bytes |
| Storage.StoreAndRead | kernel.c:4278-4314 | writing any 1 to 67383296 bytes and reading them back gives these bytes, one NUL behind them, and the rest of the buffer as it was |
| Storage.WholeLength | kernel.c:4278-4314 | a file with all its blocks delivers as many bytes as its size says |
| Storage.WholeDelivered | kernel.c:4278-4314 | reading a whole file fills the buffer with its first bytes, as many as fit or all |
| Storage.WriteKind | kernel.c:4090-4098 | the entry of a written file carries kind 1 |
| FileLaws.WriteCountsBlocks | kernel.c:4059-4068 | `i_blocks` is twice the number of blocks owned if and only if there was room |
| FileLaws.MkdirThenResolve | kernel.c:4108-4273 | a new directory can be resolved, holds "." and "..", and everything else is as before |
| Storage.DirFields | kernel.c:4233-4248 | a new directory has mode 0755, size 1024, two links, two sectors and exactly one block |
| Storage.MkdirKind | kernel.c:4250-4270 | the entry of a new directory carries kind 2 |
| Storage.FreshDirBytes | kernel.c:4215-4231 | the block of a new directory, byte by byte |
| Storage.RecordBytes | kernel.c:4081-4098 | a new record has inode, record length, name length, kind and name at their ext2 offsets |
| FileLaws.WriteThenDelete | kernel.c:4332-4518 | deleting what was just written succeeds and restores both bitmaps, all directories and all other contents |
| FileLaws.MkdirThenRmdir | kernel.c:4643-4760 | removing what was just made succeeds, frees exactly that inode, and restores the same |
| FileLaws.WalkRemoved | kernel.c:3705-3803 | after a removal a walk ends where it did, unless it passes the removed name: then it ends nowhere |
| FileLaws.DeleteSpares | kernel.c:4332-4518 | a delete frees exactly the file; every other path, file, directory and bit is as before |
| FileLaws.RmdirSparesIff | kernel.c:4643-4760 | an rmdir frees exactly the subtree and spares everything else, if and only if it was not called by "." or ".." |
| FileLaws.CopyDelivers | kernel.c:4765-4831 | the destination leads to a new file of the same size, all else is as before, and the bytes are equal if and only if there was room for all blocks |
| FileLaws.SlackFits | kernel.c:3942-3949 | behind a record with slack every name of up to 12 bytes fits |
| FileLaws.TightSlackFitsIff | kernel.c:3942-3949 | with the least slack the scan accepts, a name fits if and only if it has at most 12 bytes |
| FileLaws.ShortNamesSafe | kernel.c:3942-3949 | so such a name never overruns the directory buffer |
| FileRuns.StepKeeps | kernel.c:3860-4831 | every call, whatever it returns, keeps the volume sound and every intact file's inode and contents |
| FileRuns.RunSound | kernel.c:3860-4831 | soundness holds at every moment of every run of calls |
| FileRuns.RunKeepsFile | kernel.c:3860-4831 | a file that stays live keeps every byte through every run |
| FileRuns.NewVolumeSound | kernel.c:4215-4231 | an empty formatted volume is sound |
| SectorLimits.NewTailsBlank | kernel.c:4215-4231 | the empty volume has blank second sectors |
| SectorLimits.WriteSoundIff | kernel.c:3942-4100 | on blank second sectors, a successful write keeps the volume sound if and only if its record fits the slack and ends in the first sector; otherwise no set of inodes makes it sound |
| SectorLimits.MkdirSoundIff | kernel.c:4180-4272 | the same for a mkdir |
| TornRun.TornRunBreaks | kernel.c:4108-4273 | on the empty volume, two mkdirs of names of 240 letters both return 1; after the first the volume is sound, after the second for no set of inodes |
| TornRun.RunByLength | kernel.c:4108-4273 | that run, made with the methods |
| SectorLimits.BlankInsertSafe | kernel.c:4081-4098 | with blank second sectors, no write, mkdir or copy under any path leaves the directory buffer |
| SectorLimits.StepTails | kernel.c:4100 | second sectors of directories stay blank through every proper call |
| SectorLimits.StepSoundIff | kernel.c:3860-4760 | write, mkdir, delete and rmdir keep a volume sound if and only if they are proper |
| SectorLimits.RunSoundIff | kernel.c:3860-4831 | in any run from a sound volume with blank second sectors, soundness holds at every moment if and only if every call is proper |
| HeapBlocks.Rounded | kernel.c:4964 | the rounded size is a multiple of 4096 not below the request, if and only if the sum does not wrap |
| HeapBlocks.Disjoint | kernel.c:4941-5003 | blocks that tile the heap never share a byte |
| HeapBlocks.TakeTiles | kernel.c:4969-4977 | splitting keeps the exact tiling in whole pages and makes no two free neighbours |
| HeapBlocks.TakeEffect | kernel.c:4966-4979 | the block handed out is large enough and every other allocation is untouched |
| HeapBlocks.FailsIff | kernel.c:4962-4983 | NULL is returned if and only if no contiguous free memory holds header and rounded request |
| HeapBlocks.DmaFailsIff | kernel.c:5021-5051 | the DMA twin fails if and only if no range that holds the request clear of every boundary begins where free memory begins |
| HeapBlocks.EmptyDmaIff | kernel.c:5009-5051 | the empty DMA heap of the kernel serves a request if and only if it is at most 124 KB |
| HeapBlocks.DmaOverlooks | kernel.c:5009-5051 | the empty DMA heap of the kernel refuses 128 KB although a range for them exists |
| HeapBlocks.DmaLimit | kernel.c:5027-5035 | a request of more than 131072 bytes always fails |
| HeapBlocks.CoalesceMerges | kernel.c:4993-5002 | after the pass no two neighbours are free, whatever the list was |
| HeapBlocks.CoalesceTiles | kernel.c:4993-5002 | the pass keeps the tiling |
| HeapBlocks.FreeEffect | kernel.c:4986-5003 | freeing leaves exactly the other allocations allocated, in place and of the same size |
| HeapBlocks.AllFreeIsInitial | kernel.c:4954-4958 | with everything free the list is the single initial block |
| HeapBlocks.RunKeeps | kernel.c:4954-5071 | over every sequence of requests the tiling holds, and nothing allocated means the initial block |
| Heap.Heap.constructor | kernel.c:4954-4958 | one free block covers the heap |
| Heap.Heap.Alloc | kernel.c:4962-4983 | the list walk over linked headers is first fit, with alignment, boundary rule, failure condition and the fate of the others |
| Heap.Heap.Free | kernel.c:4986-5003 | the in-place pass over linked headers is `Coalesce` after the release |
| Frames.FramePool.constructor | kernel.c:4888-4910 | existing frames free, all others taken |
| Frames.FramePool.Alloc | kernel.c:4912-4928 | the lowest free frame, 0 if and only if there is none; the guard at the end of memory never fires |
| Frames.FramePool.Free | kernel.c:4930-4936 | clears exactly the frame's bit, and ignores addresses outside the pool |
| Frames.BelowWindow | kernel.c:4881-4900 | every frame ends at or below 0x40000000 and inside the memory |
| Frames.FramesCover | kernel.c:4888-4900 | the frames are exactly the pages from 32 MB to the end of memory, of which at most 1024 MB count |
| Frames.AllFreeIsInitial | kernel.c:4888-4910 | a bitmap with no existing frame in use is the initial one, word for word |
| FrameOwnership.MapKeeps | kernel.c:5335-5353 | mapping a fresh frame where none was keeps: a bit is set exactly when exactly one live table has the frame |
| FrameOwnership.MapKeepsIff | kernel.c:5335-5353 | this holds if and only if the entry held no frame before |
| FrameOwnership.ReapKeeps | kernel.c:5074-5086 | a process that dies gives back exactly its own frames |
| FrameOwnership.FinishLoading | kernel.c:6820-6830 | a loaded table put into a free slot keeps ownership |
| FrameOwnership.AllDeadIsInitial | kernel.c:5074-5086 | when no app is alive the bitmap is the one `init_pfa` made, word for word |
| AppMemory.Machine.LoadImage | kernel.c:6772-6790 | a frame per page filled from the file; all pages get one if and only if that many were free; `AppMemory.LoadedShows` says what the table then shows |
| AppMemory.LoadedShows | kernel.c:6772-6790 | a load that found a frame for every page shows every byte of the file at its address and zeros behind it |
| AppMemory.Machine.Abandon | kernel.c:6800-6816 | the abort loop returns every frame of the table being loaded |
| AppMemory.Machine.Launch | kernel.c:6761-6835 | starts exactly for a file with the "EDXI" header and the ring 3 flag and a free slot, the lowest; every byte of the file stands in the page the app expects it in, the rest of the last page is 0, exactly size / 4096 + 1 pages are present, user and writable; failure restores the bitmap |
| AppMemory.Machine.FreePid | kernel.c:5099-5104 | the lowest free slot from 1 |
| AppMemory.Machine.ReturnFrames | kernel.c:5074-5086 | the loop over the page table clears exactly the bits of the frames it has present |
| AppMemory.Machine.Reap | kernel.c:5245-5257 | exit, crash, window close and kill: inactive, and exactly its own frames returned |
| AppMemory.Machine.PageFault | kernel.c:5322-5368 | an access to the window maps one zeroed frame at the page of the address, present, user and writable, or kills when none is free; elsewhere it kills or panics; no other page changes |
| Scheduler.Cpu.Schedule | kernel.c:5511-5537 | the loop ends, picks the first runnable slot in cyclic order, saves and restores the stack pointer, mounts that process's table |
| Scheduler.FirstIsUnique | kernel.c:5514-5522 | there is only one such slot |
| Scheduler.BoundedWaiting | kernel.c:5514-5522 | a process that stays runnable runs within 16 ticks, whatever happens to the others |
| Scheduler.FullTable | kernel.c:5514-5522 | with all slots runnable they take turns, so the bound is met with equality |
| DiskLock.StepKeeps | kernel.c:5599-5616 | every step of every task and of the timer keeps the protocol's invariant |
| DiskLock.SafeIff | kernel.c:5599-5616 | the disk sections never overlap in any run if and only if the gate turns interrupts off and a waiting call looks again |
| DiskLock.TrapGateBreaks | kernel.c:6017 | with a gate that leaves interrupts on, a run leads to two tasks on the disk |
| DiskLock.NoRetestBreaks | kernel.c:5603-5605 | without a second look, a run leads to a call inside a copy |
| DiskLock.LockReleased | kernel.c:4781-4829 | without out-of-memory kills the lock is held exactly while some task is on the disk |
| DiskLock.OutOfMemoryWedgesIff | kernel.c:5335-5339 | a kill for lack of memory leaves the lock held by nobody if and only if no copy is past its own test |
| DiskLock.WedgeRun | kernel.c:5599-5616 | a run of five steps from the start that ends in that state |
| DiskLock.WedgedForever | kernel.c:5599-5616 | and then nobody gets to the disk again, in any run |
| JumpList.ListUnique | am-tcc/i386-gen.c:133-141 | code bytes and head determine the list: it is finite and has one reading |
| JumpList.Grow | am-tcc/i386-gen.c:149-158 | a new slot behind everything extends a list and keeps it free of overlap |
| JumpList.GsymAddr | am-tcc/i386-gen.c:133-141 | the walk ends, every jump of the list gets the displacement to the address, and no other byte changes |
| JumpList.BoundLands | am-tcc/i386-gen.c:133-141 | each of these jumps lands on the address |
| JumpList.Splice | am-tcc/i386-gen.c:731-739 | merging two lists that share no byte gives their concatenation and changes one slot only |
| CodeGen.Section.O | am-tcc/i386-gen.c:110-116 | `o` emits the bytes of its argument without leading zeros |
| Bytes.LowByteFirst | am-tcc/i386-gen.c:124-130 | words are stored low byte first, on disk and in code alike |
| CodeGen.Section.Oad | am-tcc/i386-gen.c:149-158 | instruction and four bytes of data, and the address of the data |
| CodeGen.Section.Gjmp | am-tcc/i386-gen.c:675-678 | the jump joins the list, which stays a list |
| CodeGen.Section.Gsym | am-tcc/i386-gen.c:143-146 | binds a list to the end of the code |
| Lowering.Inverse | am-tcc/i386-gen.c:725-728 | the lowest bit of a condition code inverts the condition |
| Lowering.CompareTested | am-tcc/i386-gen.c:725-728 | from flags of truth value b, control reaches the list if b differs from `inv`, else the end, with registers and flags untouched |
| Lowering.JumpsKept | am-tcc/i386-gen.c:731-739 | jumps in the sense asked for stay pending in the merged list |
| Lowering.JumpsTurned | am-tcc/i386-gen.c:740-743 | in the opposite sense, falling through jumps and the old jumps land behind it |
| CodeGen.Section.Gtst | am-tcc/i386-gen.c:720-747 | for every value and run: the list is reached exactly when the value differs from `inv`; the result is one list without overlap |
| Lowering.CompareLoaded | am-tcc/i386-gen.c:262-266 | the register ends up 0 or 1 as the flags say, other registers as before |
| Lowering.JumpsLoaded | am-tcc/i386-gen.c:267-272 | the same for pending jumps, on the way through and on the way by a jump |
| CodeGen.Section.LoadValue | am-tcc/i386-gen.c:262-272 | the boolean cases of `load` leave the value in the register on every path |
| IntegerOps.FormsAgree | am-tcc/i386-gen.c:757-787 | inc, dec, byte, word and register forms all do the same operation |
| IntegerOps.ImmediateSize | am-tcc/i386-gen.c:757-787 | adding or subtracting 1 takes one byte, except for the halves of a pair; a constant that fits a signed byte takes three, any other six |
| IntegerOps.FlagsRelate | am-tcc/i386-gen.c:788-791 | after the compare, the condition code of each relation token holds exactly when the relation does, signed or unsigned |
| IntegerOps.OpiPerforms | am-tcc/i386-gen.c:750-887 | for all register contents the code computes the operation it names, or faults exactly when that has no result |
| IntegerOps.FullProduct | am-tcc/i386-gen.c:863-867 | the widening product is the two registers together |
| IntegerOps.SignedDoes | am-tcc/i386-gen.c:868-881 | signed division and remainder round towards zero, and fault exactly on zero and on overflow |
| IntegerOps.AddApart | am-tcc/i386-gen.c:756-802 | ADDC1 and ADDC2 compute the 64-bit sum for all operands, whatever code between them keeps the carry and the lower result |
| IntegerOps.SubApart | am-tcc/i386-gen.c:756-802 | SUBC1 and SUBC2 likewise compute the 64-bit difference |
| IntegerOps.AddPair | am-tcc/i386-gen.c:756-802 | with nothing in between, ADDC1 and ADDC2 compute the 64-bit sum in two steps |
| IntegerOps.SubPair | am-tcc/i386-gen.c:756-802 | with nothing in between, SUBC1 and SUBC2 compute the 64-bit difference in two steps |
| IntegerOps.IncPairIff | am-tcc/i386-gen.c:766-771 | an inc in place of the first half would do if and only if the stale carry happens to be right |
| IntegerOps.GenOpi | am-tcc/i386-gen.c:750-887 | the emitted bytes, and that they perform the operation |
| ModRM.RoundTripIff | am-tcc/i386-asm.c:520-575 | the decoder takes exactly the bytes emitted and returns base, index, scale and displacement, if and only if the index is not esp |
| ModRM.AsmModrm | am-tcc/i386-asm.c:520-575 | the method emits these bytes and they read back as the operand |
| ModRM.PlaceReadsIff | am-tcc/i386-gen.c:180-199 | compiled references read back as their place, except through esp or ebp without an offset |
| ModRM.GenModrm | am-tcc/i386-gen.c:180-199 | the method emits these bytes and they read back as the place |
| ModRM.SameLocal | am-tcc/i386-gen.c:186-195 | a local has the same effective address in both forms, ebp plus offset |
| Branches.JumpArrives | am-tcc/i386-gen.c:681-691 | short or long, the jump arrives at the address |
| Branches.GjmpAddr | am-tcc/i386-gen.c:681-691 | the method emits that jump |
| Branches.BranchArrives | am-tcc/i386-asm.c:1030-1055 | short and long forms of a branch reach the same label or fall through: jmp, jcc, and loopne, loope, loop and jecxz with their count in ecx |
| Branches.OnlyShortIff | am-tcc/i386-asm.c:1030-1055 | loopne, loope, loop and jecxz (am-tcc/i386-asm.h:225-230) are encoded, in two bytes, if and only if the target is near |
| Branches.EncodedIff | am-tcc/i386-asm.c:1030-1055 | jmp and the conditional jumps can be encoded wherever the target is, the others only near it |
| Branches.ShortIff | am-tcc/i386-asm.c:1030-1055 | the short form is chosen if and only if the target is known and its distance fits a signed byte |
| Branches.ShortJumpIff | am-tcc/i386-gen.c:681-691 | the same for the compiler's own jumps |
| Branches.DistanceFromEnd | am-tcc/i386-asm.c:1036 | for every entry of the table the distance is measured from the end of the short form |
| Branches.DirectIsRelocated | am-tcc/i386-asm.c:500-517 | the direct displacement is what R_386_PC32 would produce, wherever the section is loaded |
| Branches.RelocatedLands | am-tcc/i386-gen.c:171-176 | after relocation the jump reaches symbol plus offset |
| Branches.AsmBranch | am-tcc/i386-asm.c:1030-1055 | the method makes that choice, reports a displacement that cannot be encoded, and what it emits does what the branch says |
| Relocation.Relocate | am-tcc/i386-link.c:163-245 | what each relocation type means for the address computed with the changed word: S for R_386_32, GLOB_DAT and JMP_SLOT, S + A relative to the field for PC32 and PLT32, where a jump left for another section reaches the symbol plus its offset, and GOT, GOT entry and GOT-relative addresses; no other byte changes |
| Relocation.TableGrows | am-tcc/i386-link.c:89-131 | appending an entry to a table of any length keeps every entry and adds one that jumps back to entry 0 |
| Relocation.Plt.CreateEntry | am-tcc/i386-link.c:89-131 | the method keeps the table and returns the entry's offset |
| Relocation.RelocatePlt | am-tcc/i386-link.c:135-154 | after relocation every entry jumps through its own GOT slot and back to entry 0, for any number of entries |
| RegisterChoice.ChooseSafe | am-tcc/i386-asm.c:1320-1427 | the letters only yield registers that are free for the roles they are taken for |
| RegisterChoice.ChooseExclusive | am-tcc/i386-asm.c:1320-1332 | an operand marked "+" or "&" gets its register for input and output |
| RegisterChoice.LetterExact | am-tcc/i386-asm.c:1335-1419 | a letter yields the lowest of what it stands for in the processor manual's numbering that is free, and nothing only when nothing is |
| RegisterChoice.ChooseExact | am-tcc/i386-asm.c:1320-1427 | the loop takes the first letter that has something to offer, with both roles behind "+" or "&", and fails only when there is none or a character does not belong there |
| AsmConstraints.ConstraintPriority | am-tcc/i386-asm.c:1141-1187 | the priority of a constraint, or an error for an unknown letter |
| AsmConstraints.PriorityIff | am-tcc/i386-asm.c:1141-1187 | which priority is due to which letters, and that exactly unknown letters are errors |
| AsmConstraints.SkipIsSuffix | am-tcc/i386-asm.c:1191-1196 | exactly the modifiers in front are skipped |
| AsmConstraints.Classify | am-tcc/i386-asm.c:1236-1270 | references link to earlier operands, at most one each, outputs never refer; priorities are right |
| AsmConstraints.SortByPriority | am-tcc/i386-asm.c:1272-1285 | the order is a permutation sorted by priority |
| AsmConstraints.ServeOne | am-tcc/i386-asm.c:1298-1433 | one turn of the loop keeps: no shared register for overlapping roles, none reserved, references follow their target |
| AsmConstraints.Allocate | am-tcc/i386-asm.c:1298-1433 | the loop over letters, registers and operands keeps this for all operands, and fails exactly when one operand in its turn finds nothing |
| AsmConstraints.ReloadRegister | am-tcc/i386-asm.c:1435-1452 | a reload register is chosen exactly when one is needed, and no output is in it |
| AsmConstraints.ComputeConstraints | am-tcc/i386-asm.c:1225-1452 | on success every operand is in its register variable or in something a letter of its constraint stands for, no two operands with overlapping roles share a register unless one refers to the other, and nothing reserved is used; result, registers and failure are those of the specification `Computed` |
| AsmConstraints.PinnedSharesIff | am-tcc/i386-asm.c:1306-1319 | an exclusive output in a register variable leaves its register to inputs if and only if no input refers to it |
| AsmConstraints.PinnedShares | am-tcc/i386-asm.c:1298-1433 | a statement with a read-write output in a register variable that is ebx and an input "b": the call succeeds and both get ebx |
| DynArrays.TestIsPower | am-tcc/libtcc.c:411 | the bit test holds exactly for powers of two |
| DynArrays.DynArray.Add | am-tcc/libtcc.c:403-421 | the store stays inside the room, earlier elements are kept, the new one is appended |
| ArgvParser.OneArgument | am-tcc/libtcc.c:1612-1626 | the inner loop reads one argument with its quotes and escapes |
| ArgvParser.MakeArgv | am-tcc/libtcc.c:1603-1633 | the arguments are appended to those already there, and their number is returned |
| ArgvParser.SplitJoin | am-tcc/libtcc.c:1603-1633 | splitting undoes quoting: any list of arguments without NUL, quoted, escaped and joined, comes back |
| ArgvParser.SplitLine | am-tcc/libtcc.c:1603-1633 | every way of writing a list of arguments comes back: any blanks, tabs and line ends around and between, quotes around parts of words, escaped quotes and backslashes, and backslashes for themselves |

## Left out

- Ext2Volume.Volume.WriteFile: a `kmalloc` that fails (kernel.c:3970-3981) and sector transfers that fail are not modelled; both are assumed to succeed, here and in every other call.
- Ext2Volume.Volume.ReadFile: the C caller's `int` size is a non-negative number here.
- Ext2Volume.Volume.CopyFile: the progress bar and the error -5 for a failed `kmalloc` are not modelled; the lock is a parameter here and a protocol in `DiskLock`.
- Ext2Volume.Volume.WipeInode: the ghost arguments (the inodes it may enter and a ranking of them) exist only for the proof that it ends.
- FileRuns.RunSound: asks that every call is proper: a new entry fits the first sector of its directory, rmdir is not called by "." or "..", and the destination of a copy has at most 255 characters. `SectorLimits.RunSoundIff` says that the first two are needed. The third is there because a copy looks its destination up again by the whole path (kernel.c:4787), which for a longer one may be another file than the one just made; the loop would then overwrite that file. The only caller (kernel.c:8204-8221) stays below 256.
- SectorLimits.StepSoundIff: is about directories whose second sector is blank, as this kernel leaves them; for directories that another system filled further only `FileRuns.StepKeeps` holds, which says when a call keeps them sound. It says nothing about a copy that is not proper, whose loop may overwrite blocks of any file the broken lookup leads to.
- The layout of superblock, group descriptor and inode table in bytes, and inode sizes of 128 or 256 bytes: the volume keeps its bitmaps and inode table as fields, and `first` keeps file data behind the blocks that hold them on disk.
- Block groups beyond the first, free counters, link counts of parents, timestamps, and `ext2_exists`.
- Loops that compare or copy names byte by byte are equality and slices of sequences.
- Heap.Heap.Free: a pointer that no allocation returned is excluded; apps writing over block headers are not modelled.
- Frames.FramePool.Alloc: the words of the bitmap are kept as their 32 bits rather than as numbers.
- AppMemory.Machine.Launch: asks that the file fits the loader's buffer and at most 1024 pages, as the code assumes; runs to completion, so a page fault of another app in the middle of `pfa_alloc_frame` is not modelled.
- AppMemory.Machine.PageFault: what the processor does before raising the fault; kernel panics end the model.
- Scheduler.Cpu.Schedule: window animation and clock code in the same function, the TSS stack, and the TLB flush.
- DiskLock.SafeIff: what happens on the disk inside a section is one step; users of the disk that never look at the lock are not covered by the protocol or the model.
- CodeGen.Section.G: the buffer grows as needed; `section_realloc` is not part of this model.
- CodeGen.Section.Gtst: code beyond 4 GB is excluded.
- `gtst_addr`: its fixed skip depends on the length of the jump before it.
- IntegerOps.GenOpi: register allocation (`gv`, `gv2`, `save_reg`) has happened; its results are the arguments. Flags after shifts and multiplications are left as they were, since no caller reads them.
- ModRM.GenModrm: relocation records for symbols; the addend bytes are modelled.
- Relocation.Relocate: 16-bit and DLL output, and unknown types.
- AsmConstraints.ComputeConstraints: `find_constraint` is a field of the operand (`target`), and `is_llong`, which the function does not initialise, is 0 on entry.
- Floating point, struct passing, bounds checking, PE and x86-64 branches of the back end; opcode tables and operand matching in `asm_opcode` beyond branch sizes.
- Drawing, input, shell text, drivers and boot code of the kernel: user interface and hardware.
