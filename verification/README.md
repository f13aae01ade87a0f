# Lesch_OS: a verified model of its kernel data structures

Lesch_OS is a small x86 teaching kernel. This project models the parts of it that keep data structures consistent, in
Dafny 4.11, and proves what they are for. `dafny verify dfyconfig.toml` checks all of it.

## The layers

**Storage** (`Ata`, `Blocks`, `Volume`, `InodeTable`, `PointerTree`, `OwnedTree`, `FileView`, `FileBytes`,
`FileHistory`, `Ext2`, `RawImage`, `NewVolume`, `BlockZero`). `Ata.AtaDevice` is an array of 512-byte sectors with the
driver's read-modify-write loops; `Ext2.Ext2Fs` is the file system driver over it, method for method. The specification
goes up in steps: sectors are a byte array, the byte array is blocks, the blocks are a volume (bitmaps, descriptors,
inode tables) with a tree of block pointers for every file, and the trees are files. `FileView.Good` is the invariant of
the whole volume: its layout is in order, the descriptors on disk are those in memory, the free counts are the numbers
of clear bits, every pointer of every file names a marked block that no other pointer names and that is none of the
volume's own, and every unmarked block is all zero. A position of the tree is a file, a slot of `inode->blocks` and the
digits of the block's index in base p = block_size / 4. Block numbers follow the code: bit k of group g is block g *
blocks_per_group + k. Writing is stated on any sound volume, full ones included: what is lacking for a write is counted
position by position (`OwnedTree.Lacking`), and the write goes through exactly if there are as many free blocks
(`FileView.Room`). `NewVolume` shows that a volume without file data is sound, and gives one with 32 free blocks and one
with none. `RawImage` reads files off the bytes of the disk alone, as the ext2 format prescribes, and shows that this is
what the driver sees and what it leaves behind. `BlockZero` is about block 0, which is read in the place of a missing
pointer block.

**Heap** (`HeapTable`, `Heap`, `HeapThreads`). The table of live blocks, the repeated-pass first fit, and the same two
operations cut into steps on shared memory, run by any number of threads under preemption.

**Physical pages and page tables** (`PageRing`, `PageRelease`, `TempPage`, `PageFrames`, `FrameStack`; `PageTables`,
`FramePool`, `Paging`, `KernelBoot`). All of memory is one array of pages of words. The headers of the free ring are the
first words of the free pages, page tables are pages, and the entry that maps the window at TEMP_PAGE, through which
both are read and written, is a word of one of them. `PageFrames` is the allocator, `Paging` the page tables; phys2virt
takes the frames for its tables from that allocator. Taken one at a time the free frames are a stack (`FrameStack`);
`FramePool.Spare` says which of the frames on top a directory does not use itself. `KernelBoot` runs
init_memory_manager.

**Threads** (`StopStart`, `LinkedRing`, `RoundRobin`, `Scheduler`). The nested stop/start counter as a transition system
over single instructions, the intrusive ring list as linked objects, and the run and wait rings on top of it. The
processor is with a thread of the run ring, or with a sleeping thread that has stayed current because it was the last
ready one (`RoundRobin.Cpu`); every operation is stated for both.

**Network** (`Checksum`, `Tcp`). The Internet checksum of section 1 of RFC 1071 and the receive path of a TCP connection
(sections 3.4 and 3.10.7.4 of RFC 9293) against an arbitrary network.

**Mount tree** (`MountMap`, `Vfs`). The walkers over the tree of mount points, and the path map they stand for.

## Conventions

- Machine words are `u32` (`Machine.Add32`, `Sub32`, `Mul32`, `S32` wrap like C). Where a contract needs values that do
  not wrap, it says so.
- Long methods of the source are cut into several methods that are called in the source's order. `kmalloc` and `kfree` of
  scratch buffers inside the driver are `new` and nothing.
- A predicate over a whole structure comes as a pair: `XIs` is the statement, `X` says that the check of it comes out
  `Clean`. The pair keeps the solver from unfolding the statement where it is only passed on. Where that is not enough, X
  is stated as `forall k :: XIs(..., k)` although XIs does not depend on k, and is opened by an assertion of `XIs(..., 0)`,
  by the lemma `XMeans`, or together with all others by `assert Unfold(0)`.
- A method of the storage layer that can run into the -1 of a full disk returns `done`. It is false where the driver would
  go on to read or write block 2^32 - 1; the model stops there, and what it has done by then is stated.
- Ghost parameters name what a caller knows: the ring a head pointer stands for, the inode behind an inode buffer, the
  place of a run or of a thread.

## Where the code does something other than it says

Each of these is stated in the model: the exact condition under which the code is right, and an input on which it is not.

- `ext2_alloc_block` returns -1 when the disk is full, but its callers test for 0. A write leaves the volume sound exactly
  if there is a free block for every block that is missing on its way (`Ext2.Ext2Fs.Write`, `WriteAll`); otherwise -1 ends
  up as a block number (`FileView.FullDisk`, `NewVolume.FullVolume`).
- A missing pointer block is not treated as missing: block 0 is read in its place. Lookups below it give 0 exactly if the
  words of block 0 are 0, so soundness asks for a block 0 of zeros. With 1024-byte blocks that is the boot block. With 2048
  or 4096 bytes block 0 holds the superblock, and no volume the driver has mounted is sound: the file results then say
  nothing, and inode block 274 of a file without a single-indirect block is found at a block that belongs to the volume
  (`BlockZero.MissingExact`, `SuperblockInside`). The results on lookups, `GetDiskBlockNumber` and below, do not need it.
- `ext2_read` returns the size asked for; that is the number of bytes read exactly if the range ends inside the file
  (`FileBytes.ReadValueExact`). Behind the end of the file the count wraps, and in the file's last block so does the length
  of the copy, which then leaves the buffer.
- An inode number that is a multiple of inodes_per_group is looked for in front of the next group's table
  (`InodeTable.MultipleSlot`).
- `ext2_alloc_block` numbers blocks from 0, whatever the superblock says. On a volume whose supblock_idx is 1, as is usual
  with 1024-byte blocks, every block it hands out is in use (`Volume.FirstBlockExact`). The soundness of a volume is stated
  in the code's own numbering.
- The kernel's directory and first tables are on the free ring. phys2virt is right exactly as long as none of them comes to
  the top (`PageTables.FilledExact`, `KernelBoot.BootSpareExact`); with little memory one does at once
  (`KernelBoot.BootTableCleared`).
- The heap's block table covers TEMP_PAGE. When init_memory_manager clears it, the table seen there at that moment, that of
  the last heap pages, is cleared too (`KernelBoot.HeapReach`).
- KERN_HEAP_BASE is one byte short of a page boundary, so the last 4095 bytes of the heap are never mapped
  (`KernelBoot.HeapMapped`).
- `kmalloc(0)` makes a block of size 0, on which a later search can stop moving and never end. It does so exactly if there
  is a `HeapTable.Trap`; `kmalloc(0)` and then `kmalloc(1)` on an empty heap is one.
- Three branches of `free_phys_pages` are right for short rings only; one of them also needs a stale word in the page to be
  right by chance.
- `thread_create` allocates inside a stop region and can wait there for ever.
- Putting the last ready thread to sleep leaves it running, and no other thread gets the processor until it wakes itself:
  bounded waiting holds exactly as long as the processor is with the run ring.
- Data on the ACK of a passive open is acknowledged and dropped; so is pushed data in FIN_WAIT.
- Mounting below a path that a mounted file system serves hides that file system's files along the new path.

## Model

| member | source | states |
|---|---|---|
| Ata.AtaDevice.Write | src/ata.c:279-316 | A write changes exactly the bytes [offset, offset + size) of the device to the buffer, across sector boundaries, and returns size. |
| Ata.AtaDevice.Read | src/ata.c:318-355 | A read fills the buffer with exactly the bytes [offset, offset + size) of the device, leaves the device alone and returns size. |
| Ata.Piece | src/ata.c:296-305 | The piece of a sector that a round handles starts at the transfer's cursor, ends where the next sector's cursor stands and stays inside the sector. |
| Ata.EndSectorExact | src/ata.c:285-294 | The loop visits exactly the sectors that hold a byte of the range; the one exception is an empty transfer at byte 0, which runs over all 2^23 sectors. |
| Ata.Memcpy | src/help_func.c:3-16 | Copying replaces exactly the bytes at the destination offset. |
| Blocks.BlockWrite | src/ext2.c:12-16 | Block-level read-over-write: a block write changes that block of the device and no other. |
| Ext2.Ext2Fs.ReadBlock | src/ext2.c:6-10 | Reads the whole block and changes nothing. |
| Ext2.Ext2Fs.WriteBlock | src/ext2.c:12-16 | The block becomes the buffer; every other block stays. |
| Ext2.Ext2Fs.RewriteDescriptors | src/ext2.c:406-412 | The descriptor array goes to blocks 2, 3, ... and nowhere else, and if these blocks have room for it, a mount reads every descriptor back from the disk field by field: little-endian words at byte 30 * i, + 4 and + 8, half words at + 12, + 14 and + 16, words at + 18, + 22 and + 26 of the bytes of these blocks one behind the other. |
| Volume.BgdsRewritten | src/ext2.h:116-128 | The packed layout of a descriptor, by byte offset: what rewrite_bgds has written reads back as the array in memory, also where a descriptor crosses a block boundary. |
| Volume.BgdsKept | src/ext2.c:406-411 | A write to any other block leaves every descriptor on the disk readable as it was. |
| Ext2.FirstClear | src/ext2.c:338-347 | The scan stops at the first clear bit of the bitmap, or at its end if all bits are set. |
| Ext2.Ext2Fs.AllocBlock | src/ext2.c:326-364 | Fails with -1 exactly when no block is free; otherwise returns the smallest free block number and marks exactly that block, on disk and in the counters, and a mount then reads every descriptor back from the disk as it is in memory. |
| Volume.SameNumber | src/ext2.c:357 | The numbering g * blocks_per_group + k is one to one: a block number stands for one bit of one group. |
| Volume.NumberOrder | src/ext2.c:357 | Block numbers grow with the group and, inside a group, with the bit, so the scan order is the order of numbers. |
| Volume.FirstBlockExact | src/ext2.c:326-364 | In the format bit k of group g is block supblock_idx + g * blocks_per_group + k; the number ext2_alloc_block returns names a free block if and only if that field, which it never reads, is 0. |
| Volume.ScannedLeast | src/ext2.c:330-347 | The first clear bit in scan order is the least free block number. |
| Volume.TakeFree | src/ext2.c:347-357 | After an allocation exactly that block has stopped being free. |
| Volume.TakeCounted | src/ext2.c:347-357 | An allocation keeps the padding bits set and free_blocks equal to the number of clear bits of each group. |
| Volume.TakeFrame | src/ext2.c:347-357 | An allocation changes no block but the group's bitmap and the descriptor blocks. |
| Volume.TakeMounted | src/ext2.c:347-357 | After an allocation the counters on disk are those in memory. |
| FileHistory.AllocRunIncreases | src/ext2.c:326-364 | In a run of allocations the numbers handed out grow strictly, so none is handed out twice. |
| Volume.SmallRadix | src/ext2.c:84-128 | For the block sizes of ext2 the intermediate values of the digit arithmetic fit in s32int, and every 32-bit file offset lies in a block the tree can address. |
| PointerTree.PathIndex | src/ext2.c:84-135 | Every inode block number names one full-depth position of the pointer tree, whose digits give the number back. |
| PointerTree.IndexPath | src/ext2.c:84-135 | Conversely every full-depth position is named by one inode block number: the digits (a), (c, d), (e, f, g) are a bijection. |
| PointerTree.RouteIsPath | src/ext2.c:91-128 | The s32int arithmetic of the code finds that position, without wrap-around. |
| OwnedTree.StoreAt | src/ext2.c:420-488 | Storing a pointer in its pointer block or in the inode changes the block number at that position and at no other, because no pointer block is shared. |
| OwnedTree.StoreInv | src/ext2.c:294-324 | Hooking in a fresh, marked block keeps the ownership invariant. |
| OwnedTree.TreeFrame | src/ext2.c:84-135 | Rewriting blocks that are read as pointer blocks by nobody leaves the whole tree in place. |
| Ext2.FindRoute | src/ext2.c:91-128 | The case analysis at the head of both walkers picks the position of the inode block. |
| Ext2.Ext2Fs.GetDiskBlockNumber | src/ext2.c:84-135 | Returns the block number at the position of the inode block, through zero to three pointer blocks, on any volume whose pointer blocks lie on the device, sound or not. |
| BlockZero.BelowMissing | src/ext2.c:84-135 | Below a missing pointer block the number found is a word of block 0. |
| BlockZero.MissingExact | src/ext2.c:84-135 | The inode blocks behind a missing single-indirect block are all found missing exactly if block 0 is all zero. |
| BlockZero.SuperblockInside | src/ext2.c:18-82 | With blocks of 2048 or 4096 bytes a device with the superblock ext2_init reads is never sound: inode block 274 of a file without a single-indirect block is found at block log2block_size. |
| Ext2.Ext2Fs.AllocRootBlock | src/ext2.c:294-324 | For every volume: if the pointer block is there already, nothing changes at all; if it is missing and a block is free, it appears, takes exactly that block, and no file reads differently; on a full disk -1 ends up in the inode and the volume is no longer sound. |
| Ext2.Ext2Fs.AllocInnerBlock | src/ext2.c:294-324 | The same for a pointer block named by a word of another one, whose buffer and disk copy agree afterwards. |
| Ext2.Ext2Fs.SetDiskBlockNumber | src/ext2.c:420-488 | Goes through exactly if there is a free block for each pointer block that is missing, none for a direct block; then it takes exactly those, the inode block's position holds the number given, and every other position of every file keeps its own. |
| FileBytes.SetThenGet | src/ext2.c:84-135 | After set_disk_block_number(b, d) the lookup of b gives d, and the lookup of every other inode block of every file gives what it gave before. |
| Ext2.Ext2Fs.AllocInodeBlock | src/ext2.c:659-667 | With a free block for the inode block and each missing pointer block, exactly those are taken, the inode block is a block of zeros of its own, and no byte of any file changes; without, the volume is no longer sound. |
| FileView.FullDisk | src/ext2.c:659-667 | On a full disk alloc_inode_block leaves 2^32 - 1 as the block number, and the volume is not sound. |
| FileView.AllocStep | src/ext2.c:326-364 | A block from the bitmap is marked, all zero and owned by nobody; taking it disturbs no file and no inode. |
| FileView.StoreStep | src/ext2.c:294-324 | A fresh block in the place of a missing pointer keeps the volume sound and every file's bytes. |
| FileView.DataStep | src/ext2.c:146-152 | Writing the block of a file position changes the bytes at that position and at no other position of any file. |
| FileView.SlotStep | src/ext2.c:250-267 | Writing an inode slot changes that inode and disturbs no file. |
| InodeTable.CodeFindsSlot | src/ext2.c:235-247 | Block and offset of the code are the place of byte ((ino - 1) mod inodes_per_group) * inode_size of the group's table, and the slot does not cross the block's end. |
| InodeTable.IdxRight | src/ext2.c:235-238 | The index is right exactly for inode numbers that are no multiple of inodes_per_group; for a multiple it wraps to 2^32 - 1. |
| InodeTable.MultipleSlot | src/ext2.c:235-247 | For a multiple of inodes_per_group the code reads and writes the last slot of the block in front of the table of group ino / inodes_per_group, the wrap-around of its products included. |
| InodeTable.SlotsDisjoint | src/ext2.c:235-247 | Different inodes have disjoint slots. |
| InodeTable.SlotReadBack | src/ext2.c:233-267 | An inode that was written reads back as written, and every other inode as before. |
| Ext2.Ext2Fs.ReadInodeMetadata | src/ext2.c:233-248 | Fetches the inode's slot and changes nothing on disk. |
| Ext2.Ext2Fs.WriteInodeMetadata | src/ext2.c:250-267 | Replaces the inode's slot on disk and nothing else. |
| Ext2.FilePiece | src/ext2.c:167-184 | The piece of a block that a round copies is what the block has in common with the byte range; in the extra round at end_offset = 0 it is empty, although the code's `right` wraps. |
| Ext2.Ext2Fs.ReadInodeBlock | src/ext2.c:137-144 | The buffer holds the bytes at the inode block, zeros if it is missing. |
| Ext2.Ext2Fs.WriteInodeBlock | src/ext2.c:146-152 | The block found for the inode block becomes the buffer, on any volume on which the lookup stays on the device. |
| Ext2.Ext2Fs.ReadInodeFiledata | src/ext2.c:154-187 | The file's bytes from the offset on are copied, as many as there are inside the range and none behind the end, the rest of the buffer stays, and the count returned is endBytes - offset in 32 bits; it goes through unless the offset lies behind the end of the file in its last block, where the copy would leave the buffer. |
| FileBytes.BytesReadExact | src/ext2.c:156-186 | The value returned is the number of bytes in range exactly if the offset does not lie behind the end of the file; behind it, the value wraps to more than was asked for. |
| FileBytes.ReadValueExact | src/ext2.c:270-280 | The size that ext2_read returns is the number of bytes read exactly if the range does not reach behind the end of the file. |
| Ext2.Ext2Fs.WriteInodeFiledata | src/ext2.c:189-231 | Succeeds exactly if there is a free block for every block of the range, inode block or pointer block, that is missing, so always where nothing is missing; then the range holds the buffer, every other byte of every file is what it was, the file has grown as far as needed, exactly the missing blocks were taken, and the volume is sound. Otherwise it is not sound. |
| FileBytes.ReadOverWrite | src/ext2.c:154-231 | Read-over-write, byte by byte, for every file and every byte number of 32 bits. |
| FileBytes.ReadAfterWrite | src/ext2.c:154-231 | What the read loop delivers after a write: the buffer inside the written range, the old bytes elsewhere. |
| FileBytes.WriteDone | src/ext2.c:189-231 | Growing the size and then patching block for block amounts to the write of the whole range, and takes exactly the blocks that were missing. |
| Ext2.Ext2Fs.Read | src/ext2.c:270-280 | Reads through the inode table, offsets behind the end included; the value returned is the size asked for. |
| Ext2.Ext2Fs.Write | src/ext2.c:282-292 | The write, for a file named by its inode number: the volume is sound afterwards if and only if there was a free block for every missing one. |
| Ext2.Ext2Fs.WriteAll | src/ext2.c:189-231 | Any run of writes to any number of files: it goes through, and the volume stays sound, if and only if the free blocks suffice for the blocks missing over the whole run, each counted once; then every byte is the last one written to it, every file reaches to its furthest write, and exactly the missing blocks were taken. |
| RawImage.RawFile | src/ext2.c:84-187 | On a sound volume the driver's view of a file, with the descriptors in memory, is what the ext2 format says about the bytes of the disk: descriptors from block 2 on, 128-byte inodes, the size at byte 4, block numbers from byte 40 on, 12 direct ones and three levels of pointer blocks, little-endian. |
| RawImage.RawBlockIs | src/ext2.c:84-135 | The lookup follows blocks[i], blocks[12], blocks[13] and blocks[14] through zero to three pointer blocks as the format prescribes, for every inode block. |
| RawImage.RawInodeIs | src/ext2.c:233-248 | An inode is the 128 bytes at slot ino % inodes_per_group - 1 of the table that the descriptor of its group names on the disk. |
| RawImage.RawFreeIs | src/ext2.c:326-347 | A block is free exactly if bit n % 8 of byte n / 8 of the bitmap block that the descriptor on the disk names is clear. |
| RawImage.Remounted | src/ext2.c:189-231 | After a write a fresh mount, which has nothing but the bytes of the disk, finds in every file and at every byte what was written or what was there before, and the right size. |
| RawImage.RemountedRun | src/ext2.c:189-231 | After any run of writes it finds at every byte what the last write that covers it has put there, and the old byte where there was none. |
| FileHistory.OneOwner | src/ext2.c:294-364 | What soundness says: a block has at most one role, every owned block is marked in the bitmap, every unmarked block is all zero. |
| NewVolume.SmallGood | src/ext2.c:18-82 | Soundness can be met: a 256-block volume with two empty files, its descriptor on disk, is sound with the inodes its own table holds, with 32 free blocks and with none. |
| NewVolume.FullVolume | src/ext2.c:189-231 | A one-byte write on that volume has room exactly if the disk is not full. |
| Heap.OverlappedBlocks | src/memory.c:402-405 | For addresses that do not wrap the pointer test is the overlap of two ranges as the heap means it. |
| HeapTable.FitsExact | src/memory.c:402-405 | Between blocks that are not empty the test passes exactly if no address belongs to both. |
| Heap.Heap.Search | src/memory.c:409-438 | The search ends after at most count + 1 rounds, on the least admissible address from start + sizeof(heap_s) on that overlaps no live block. |
| Heap.Heap.KmallocCommon | src/memory.c:407-464 | Returns that address (page-aligned on request), enters the block in front of the table, keeps live blocks apart and the sum of free and live bytes constant. The caller's condition is that no trap lies in the search's way. If phys_addr is asked for it gets the frame of the block's page, and the page tables have to be in order; if not, they are not looked at. |
| Heap.Heap.Kfree | src/memory.c:502-541 | The first block that starts at the pointer leaves the table; NULL and unknown pointers change nothing, neither the table nor the size left; free plus live bytes stay constant. |
| HeapTable.LeastFitUnique | src/memory.c:409-438 | The address first fit finds is determined by the table and the request. |
| HeapTable.OneBlockPerAddress | src/memory.c:402-464 | No address belongs to two live blocks. |
| HeapTable.FreedExact | src/memory.c:502-541 | Without empty blocks kfree removes exactly the block that starts at the pointer. |
| HeapTable.FreedFirst | src/memory.c:502-541 | On any table, empty blocks included, kfree takes out the first block that starts at the pointer, and nothing if there is none. |
| HeapTable.FreeUndoesAlloc | src/memory.c:407-541 | kfree right after kmalloc restores the table. |
| HeapTable.RoundProgress | src/memory.c:409-438 | The measure: a round that moves the candidate uses up a live block that ended above it. |
| HeapTable.StuckExact | src/memory.c:409-438 | A round finds an overlap without moving exactly on an admissible address where an empty block starts and nothing else is in the way. |
| HeapTable.HaltsExact | src/memory.c:409-438 | The search from any start, aligned or not, ends if and only if the table has no trap for it: an admissible address with nothing that fits before it, where only empty blocks that start there are in the way. |
| HeapTable.NoEmptyBlocks | src/memory.c:409-438 | A table without empty blocks has no trap, so the search ends. |
| HeapTable.EmptyBlockHangs | src/memory.c:409-438 | kmalloc(0) on an empty heap puts an empty block where kmalloc(1) then searches for ever. |
| HeapTable.EmptyBlockHarmless | src/memory.c:409-438 | A table with an empty block on which requests of every size end. |
| HeapThreads.MutualExclusion | src/sync.c:4-20 | In every interleaving at most one thread is between get_mtx and clean_mtx, and only while the lock is taken. |
| HeapThreads.Serializable | src/memory.c:407-541 | Whenever heap_mtx is false the table is what the completed operations give one after the other, in the order of their releases: every allocation got the least address that fitted, live blocks never overlap, no byte is lost. Which operations these are `HeapThreads.CallsServed` says. |
| HeapThreads.CallsServed | src/memory.c:407-541 | In every run the completed operations of a thread, followed by the one it is at, are exactly the calls of the turns in which it was idle, in order and with the arguments it passed. |
| HeapThreads.Completion | src/memory.c:407-541 | A thread that comes to the free lock, at any point of any run, and then runs alone completes its operation, with one more log entry and the lock given back, if and only if it is a kfree or its search ends. |
| HeapThreads.StepKeeps | src/memory.c:407-541 | Every step of every thread, including steps with half-moved tables, keeps the invariant. |
| HeapThreads.LegalApart | src/memory.c:407-541 | Blocks handed out along any legal serial order are apart. |
| StopStart.CounterIsDepth | asm/switch_task.asm:53-67 | In every reachable state multi_task is the running thread's nesting depth, and every other thread's depth is 0: no update is lost, although stop and start are not atomic. |
| StopStart.NoSwitchInside | src/timer.c:71-77 | The timer can switch exactly outside of stop/start regions, also when it comes between the load and the xchg. |
| StopStart.SwitchSafe | src/schedul.c:228-254 | A switch to another thread keeps the counter right exactly outside of all regions. |
| StopStart.SpinInsideRegion | src/sync.c:4-14 | A thread that waits for a lock of another thread is stuck exactly inside a stop region. |
| StopStart.LockExact | src/sync.c:4-14 | A try takes the lock exactly if nobody holds it; otherwise the owner stays and the thread spins. |
| StopStart.UnlockPassesOn | src/sync.c:16-20 | After clean_mtx a thread that spins takes the lock with its next try, exactly if the timer can switch to it, that is outside of all stop regions. |
| StopStart.FrozenForever | src/sync.c:4-14 | Once stuck, nothing that can happen changes anything, in any run. |
| StopStart.HopelessRun | src/schedul.c:138-173 | thread_create can get there: it enters a stop region and then waits for the heap lock of a thread that was preempted. |
| PageFrames.PageFrames.AllocPhysPages | src/memory.c:230-291 | -1 exactly when no single free run has `count` pages; otherwise the last pages of the first run that is large enough, and the ring and free_pcount are right afterwards. |
| PageRing.UnlinkedHolds | src/memory.c:249-270 | Unlinking a whole run leaves the ring of the others: prev and next inverse, in address order, with the right head. |
| PageRing.TakenPages | src/memory.c:230-291 | Exactly the pages returned stop being free. |
| FrameStack.PopIsAlloc | src/memory.c:230-291 | Allocating one page pops the top of a stack of frames and fails exactly if the stack is empty: the free list that phys2virt takes its tables from. |
| FrameStack.StackPages | src/memory.c:230-291 | The stack holds exactly the free pages ... |
| FrameStack.StackDistinct | src/memory.c:230-291 | ... each of them once. |
| PageFrames.PageFrames.FreePhysPages | src/memory.c:122-228 | free_pcount grows by the pages given back, and the ring comes out right exactly under the conditions of ComesOutRight, which a caller can check beforehand. |
| PageRelease.MergedHolds | src/memory.c:144-164 | Pages that fill the gap between two free runs merge them into one. |
| PageRelease.PrependExact | src/memory.c:165-184 | Pages in front of a free run come out right exactly if there are two free runs and the stale size word in the first page happens to be the right count. |
| PageRelease.InsertExact | src/memory.c:185-200 | Pages between free runs come out right exactly if there are at most two free runs, since the code takes next for prev. |
| PageRelease.LastExact | src/memory.c:201-214 | Pages behind the last free run come out right exactly if there is one free run. |
| PageRelease.BrokenRing | src/memory.c:201-214 | A concrete ring of two runs that the last branch breaks. |
| PageRelease.FreeUndoesSplit | src/memory.c:122-291 | Giving back the pages of a splitting allocation restores the ring exactly, if the run they came from does not touch the one behind it. |
| PageRing.ReleasedPages | src/memory.c:122-228 | Exactly the pages given back become free. |
| PageRing.PagesReleased | src/memory.c:224 | The sum of the run sizes grows by the pages given back. |
| Paging.Mmu.OnPageMode | src/memory.c:18-58 | The first 4608 pages are mapped to themselves through distinct tables, and the directory is well formed. |
| TempPage.TempMapPage | src/memory.c:102-113 | Another frame appears at TEMP_PAGE; the one word of memory that changes is the entry of the window, with the present and the write bit set, and no header of a free run is part of it. |
| Paging.OnlyWindowMeans | src/memory.c:102-113 | For every directory that is in order, moving the window changes no entry but that of TEMP_PAGE. |
| FramePool.TouchedTables | src/memory.c:230-291 | The allocator's writes to headers in frames that a directory does not use change no entry of it, although both go through the same window. |
| Paging.Mmu.AllocFrame | src/memory.c:230-291 | alloc_phys_pages(1) next to the page tables: -1 exactly if no frame is free, otherwise the frame on top of the stack leaves the ring, and the tables, the ring and the other spare frames stay as they are. |
| Paging.Mmu.Phys2virt | src/memory.c:352-396 | Succeeds if and only if there are as many free frames as tables missing in the range, and turns exactly that many frames from the top of the stack into tables, each entered as present, writeable and for the user; the pages are mapped one after the other to consecutive frames, all others but TEMP_PAGE keep their entry, the tables stay distinct and the free ring in order; on failure a prefix is mapped. Asked of the directory is only that it does not use those frames itself. |
| Paging.Mmu.Virt2phys | src/memory.c:333-350 | Frame of the entry plus page offset, for any directory in order, whatever frames are free: the address the processor itself goes to wherever the page is mapped; where no table is present, a word of whatever frame the empty slot names is taken for the entry. Only the window moves. |
| Paging.Mmu.GetPageInfo | src/memory.c:548-575 | The page's entry, 0 where no table is present: the same entry virt2phys masks. Only the window moves. |
| PageTables.MappedMeans | src/memory.c:352-396 | The address x bytes behind the start of the first page goes to paddr + x, for every byte of the pages mapped. |
| PageTables.MappedWalk | src/memory.c:352-396 | In terms of the processor's own walk over directory and table: with the present bit in the flags, byte x of the range goes to paddr + x, and every address outside of it goes where it went. |
| KernelBoot.InitMemoryManager | src/memory.c:293-331 | The kernel's start on one region of free memory from 1 MB to frame 0x1408 or further: the free ring is that region without its last nine frames, which are tables; the block table and the heap are mapped as asked, except for all heap pages from 0x7FC00 on, whose table the clearing of the block table wipes out through TEMP_PAGE. |
| KernelBoot.HeapReach | src/memory.c:293-331 | After that a heap address is mapped exactly if it lies below 0x7FC00000: 4194303 bytes of the heap are not. |
| KernelBoot.HeapMapped | src/memory.c:318-320 | What phys2virt alone makes of the heap, address by address as the processor walks the tables: it goes to consecutive memory, except for its last 4095 bytes, which fault, since KERN_HEAP_BASE is not on a page boundary. |
| KernelBoot.BootSpareExact | src/memory.c:301-320 | The kernel's directory and first tables, frames 0x500 to 0x505, are on the free ring; the n frames handed out next can be used for tables if and only if none of those is among them. |
| KernelBoot.BootTableCleared | src/memory.c:366-382 | With memory up to frame 0x505 the first table phys2virt asks for is the table of TEMP_PAGE: it is cleared, and pages 0x1000 to 0x11FE are not mapped any more. |
| PageTables.FilledExact | src/memory.c:366-382 | That is needed: the directory is in order after a frame has become a table if and only if nobody uses the frame, or it is the table of TEMP_PAGE and goes where that belongs. |
| PageTables.FilledSuits | src/memory.c:366-382 | Then nothing is mapped or lost by the new table, and no other slot of the directory changes. |
| FramePool.SpareFilled | src/memory.c:366-382 | Nor does the free ring change, and the other spare frames stay spare. |
| PageTables.EntryWrite | src/memory.c:388-391 | Writing an entry changes that page and no other. |
| LinkedRing.List.Add | src/list.c:76-100 | Appends the item to the ring; an item that is in a list already, this one included, stays where it is and nothing changes. |
| LinkedRing.List.Remove | src/list.c:102-122 | Exactly that item leaves the ring; its own next stays as it was. |
| Scheduler.Scheduler.ThreadCreate | src/schedul.c:138-199 | The new thread gets the next id and is last in the run ring or, if created suspended, in the wait ring; rings, list fields and suspend flags agree, and the thread that has the processor keeps it, whether it is in the run ring or asleep. |
| Scheduler.Scheduler.ThreadSuspend | src/schedul.c:228-254 | A ready thread moves to the wait ring or a sleeping one to the end of the run ring, then the processor goes where the event leads it: to the next thread, or, when the last ready thread has been put to sleep, nowhere until that thread is woken. |
| Scheduler.Scheduler.SwitchTask | asm/switch_task.asm:20-50 | The processor goes to the current thread's next; both rings stay. A sleeping current thread's next is itself. |
| Scheduler.Scheduler.InOneRing | src/schedul.c:228-254 | Every thread is in exactly one ring, and its list fields say in which. |
| Scheduler.Scheduler.ServeAll | src/schedul.c:138-254 | Over any run of calls, from any state, the two rings partition all threads there are, the new ones included, and the processor is where the events of the run lead it. |
| RoundRobin.AfterValid | src/schedul.c:138-254 | Over any run no thread is in the run ring twice, and a sleeping thread that has the processor is not in it. |
| RoundRobin.OffRingExact | src/schedul.c:228-254 | Over any run: the processor is with a sleeping thread exactly if that one was put to sleep as the last ready thread and nobody has woken it since. |
| RoundRobin.RunsExact | asm/switch_task.asm:20-50 | A ready thread gets the processor by switches if and only if the processor is with the run ring. |
| RoundRobin.KeepsProcessor | src/schedul.c:228-254 | A sleeping thread that has the processor keeps it over every run in which nobody wakes it. |
| RoundRobin.Starves | src/schedul.c:138-254 | The only ready thread goes to sleep, another one is created: it is not running after any number of switches. |
| RoundRobin.SwitchesReach | asm/switch_task.asm:20-50 | k switches from ring place i lead to place (i + k) mod n. |
| RoundRobin.EveryoneOnce | asm/switch_task.asm:20-50 | n consecutive switches run every ready thread exactly once. |
| RoundRobin.StaleNext | src/schedul.c:228-254 | A running thread that has unlinked itself leaves through its stale next to its old successor. |
| RoundRobin.NextRuns | src/schedul.c:138-254 | Who has the processor behind an event: after a switch the next thread of the ring, after a creation the same one, after a thread has gone to sleep the next one that is left, after one has woken the next one, which is the woken one if the last of the ring was running. |
| RoundRobin.StepDistance | src/schedul.c:138-254 | A waiting thread's distance drops by one per switch, never rises when another thread sleeps, and rises by at most one per wake or creation. |
| RoundRobin.BoundedWaiting | asm/switch_task.asm:20-50 | Over any run in which the processor stays with the run ring a ready thread waits for fewer switches than its distance at the start plus the threads created or woken meanwhile. |
| Checksum.IpCalcChecksum | src/net.c:180-196 | The summing and folding loops end with the checksum of the packet, for any length; what that is by index is stated next. |
| Checksum.SumByIndex | src/net.c:180-190 | For an even length the sum is that of the words 0x100 * pack[2k] + pack[2k + 1] over all k. |
| Checksum.OddPadded | src/net.c:188-190 | For an odd length the checksum is that of the packet with a zero byte behind it: the last byte is a high byte. |
| Checksum.ChecksumExact | src/net.c:180-196 | A 16-bit value is the checksum exactly if its complement, the two bytes swapped, is congruent modulo 65535 to the sum by index of the padded packet and is 0 only if that sum is. |
| Checksum.FoldIs | src/net.c:191-193 | Folding yields the one's-complement sum: congruent modulo 65535, and zero only for zero. |
| Checksum.ZeroMeans | src/net.c:180-196 | The checksum is 0 exactly for packets whose sum is a nonzero multiple of 65535. |
| Checksum.StoreThenVerify | src/net.c:151-152 | Storing the checksum in a zeroed, 16-bit aligned field makes recomputation return 0, as long as the 32-bit sum does not overflow. |
| Tcp.Socket.Recv | src/net.c:1034-1171 | The receive path of a known connection, field by field: RST closes; a segment that is not the next one of an open connection changes nothing; the next one moves ack_num by its length plus 1 for FIN or SYN, its data is delivered in ESTABLISHED and with ACK or FIN and ACK in FIN_WAIT, ACK opens and FIN and ACK closes; SYN and ACK in SYN_SENT opens and sets ack_num. |
| Tcp.AcceptedInOrder | src/net.c:1050-1056 | A segment of an honest peer that passes the test starts exactly at the first byte that is missing. |
| Tcp.StepInOrder | src/net.c:1050-1168 | A segment of an honest peer keeps the delivered bytes a prefix and ack_num right, FIN and closing included, exactly unless its data is acknowledged without being delivered. |
| Tcp.LosesWhere | src/net.c:1091-1168 | That happens for data on a segment that completes or breaks off a passive open and for data with other flags than ACK or FIN and ACK in FIN_WAIT, and nowhere else. |
| Tcp.NetInOrder | src/net.c:1034-1171 | The same from any state, FIN_WAIT included, over every run of arrivals none of which loses data. |
| Tcp.InOrderDelivery | src/net.c:1034-1141 | Whatever the network drops, repeats or reorders, while the application does not close: with no data on the segment that completes a passive open, the bytes delivered are a prefix of the peer's stream; before FIN has been taken ack_num = ISN + 1 + delivered, and once it has, closed or not, the whole stream is delivered and ack_num = ISN + 2 + its length, modulo 2^32. |
| Tcp.Delivered | src/net.c:1034-1141 | Liveness: if segments that make up the stream arrive, each when it is the next one, then whatever else arrives in between, short of a reset, the whole stream has been delivered at the end. |
| Tcp.Retransmitted | src/net.c:1034-1141 | If the peer cuts its stream once and every piece gets through at least once in the order of the stream, the whole stream is delivered, whatever else is dropped, repeated or reordered. |
| Tcp.HandshakeDataLost | src/net.c:1091-1101 | A byte on the handshake ACK is acknowledged and never delivered. |
| Tcp.FinWaitDataLost | src/net.c:1142-1168 | A pushed byte in FIN_WAIT is acknowledged and never delivered. |
| Vfs.MountTree.Mount | src/vfs.c:447-550 | Mounting turns the path map into Mounted of it: the path gets the file if it is free, nodes appear along it, and everything else stays. |
| Vfs.MountTree.GetMountpoint | src/vfs.c:78-203 | For every path: returns the file of the deepest node on the way, and the components behind it and behind the empty component that ended the walk, if one did. |
| Vfs.SplitWhole | src/vfs.c:206-242 | Matched components, that empty component and the remainder are the original path. |
| Vfs.TrimMore | src/vfs.c:89 | An empty component ends a path: what stands behind it is not looked at. |
| Vfs.MountTree.FileOpen | src/vfs.c:206-270 | Opens file g if and only if there is a mount point on the path, at most 256 components are left behind it, and a chain of vfs_finddir steps leads from its file to g by these components; nothing if and only if one of the three is missing. |
| Vfs.MountTree.TreeInsert | src/vfs.c:289-303 | A new node below another one, with no file. |
| Vfs.SiblingsDiffer | src/vfs.c:475-550 | Sibling names are unique. |
| MountMap.MountedNodes | src/vfs.c:475-550 | A taken path changes nothing; otherwise the path gets the file, every other node keeps its own, and new nodes are prefixes of the path. |
| MountMap.MountThenLookup | src/vfs.c:78-203 | After mounting on a free path its lookup returns the file, with nothing left over. |
| MountMap.LookupSplits | src/vfs.c:78-150 | A lookup finds one split of a path into a node and a remainder: exactly the one at which no node goes one component further. |
| MountMap.ResolveExact | src/vfs.c:231-242 | The walk inside a mounted file system ends on file g if and only if there is a chain of files from the mount's file to g in which vfs_finddir leads from each to the next by the next component; it ends nowhere if and only if there is no such chain. |
| MountMap.OpenBelowMount | src/vfs.c:206-270 | After a mount, a path through the new mount point opens a file if and only if the mounted file system's own lookups lead to it, component by component, from its root. |
| MountMap.LookupChanges | src/vfs.c:78-150 | A mount changes what another path finds exactly if that path goes along with the mounted one beyond the nodes there were, or had ended on the node that got the file; in the first case an intermediate node without a file hides what was found before. |
| MountMap.MountHides | src/vfs.c:475-550 | With a root file system and a mount at /a/b, /a/c can no longer be opened, although the root file system leads to a file by a and then c. |

## Left out

- Hardware: port I/O, PCI, ATA registers and DMA, network drivers, GDT, IDT, TSS and CR3. Sector commands are an array of
  sectors, TLB invalidation is immediate.
- `ext2_free_block`, `ext2_free_inode` and their callers: they index the bitmap by 4 instead of 32 and do not undo an
  allocation. The storage model has runs of allocations and writes.
- Directory entries, inode allocation, ext2_mkdir, ext2_mkfile, ext2_listdir: no common rule for record sizes holds.
- The value of num_sectors: it is updated as in the code, and nothing is proved about it.
- Inode sizes other than 128: `ext2_read` and `ext2_write` copy inode_size bytes into a buffer of 128 bytes,
  sizeof(ext2_inode_s).
- Block size 1024 << n with n > 2: the digit arithmetic is proved for block sizes 1024, 2048 and 4096.
- Ext2.Ext2Fs.Write: the byte range may not run past 2^32. What a driver that has been handed block -1 does on the device
  after that is not modelled; the volume has stopped being sound by then.
- Ext2.Ext2Fs.Read: what a copy with a wrapped length leaves behind the buffer is not modelled; `done` is false there.
- Heap.Heap.KmallocCommon: the table has room for one more block, and no address wraps.
- HeapThreads: moving a table entry is one step, although it is two word copies; no other thread can see the difference,
  since all of it happens inside the lock. Table room and address wrap-around are not modelled there.
- `ufree` and `get_kheap_block`: the first never reads the block's size, the second does not give the lock back.
- Paging.Mmu.AllocFrame: stated for the case that the frame on top is spare; `PageTables.FilledExact` says what becomes of
  the directory if it is not.
- KernelBoot.InitMemoryManager: one region of free memory; that frames of the heap and its block table stay on the free ring
  is as in the code, and nothing is proved about their contents.
- Paging.Mmu.Virt2phys: an address in TEMP_PAGE, whose entry the lookup itself rewrites, is stated on the table words only;
  a slot without a table has to name a frame inside memory.
- Paging.Mmu.Phys2virt: flags fit in the low 12 bits, addresses do not wrap.
- Page directories of processes (clone_kern_dir, all_dir_pages) and tables shared between directories.
- `cli` and `sti` around stop regions, interrupt handlers that wake threads, thread and process teardown.
- StopStart: the nesting depth stays below 2^32.
- Scheduler.Scheduler.ThreadCreate: stack set-up, the process's thread table and the screen are not modelled, and the
  suspend flag of a thread created suspended is written when it changes rings.
- Finding the connection of a segment, listening sockets, sending, retransmission and `tcp_sort_pack`; what replies add to
  the socket's own sequence number is a parameter of `Tcp.Socket.Recv`.
- `list_insert_back` on an empty list, `list_contain`.
- Path strings: strcmp is equality and a path is the sequence of its components after strsep; an empty component ends a
  walk as in the code. The trailing-slash branch of `get_mountpoint` reads through the wrong pointer and is not modelled.
- Vfs.MountTree.FileOpen: vfs_finddir is a parameter, and freeing the nodes on the way is left out.
