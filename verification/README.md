# ext2-lite and the Lunix sensors, verified

A Dafny model of two kernel modules and proofs about it.

**ext2-lite** (`OSLab/Filesystems/Code`) is a small writable ext2 with direct blocks only.

- *Directories* (dir.c). `DirImage`, `DirChain` and `DirPages` hold the bytes of directory pages and the chain of records
  in them: a header that has been merged into its predecessor keeps its bytes, so whether a record starts at an offset is
  a fact about the chain of `rec_len` fields. `DirWalk` has the loops over one page, `DirEdits` the effect of an edit on the
  whole directory, `Directories` the class `Directory` with dir.c's operations in place, `DirRuns` their meaning as
  operations on one map from names to inode numbers, and `ReadDir` the open directory and whole enumerations. `DirBytes`
  reads pages and entries as plain bytes.
- *Blocks* (balloc.c, inode.c). `Bitmap`, `Geometry` and `BlockMap` hold the groups and their bitmaps; `Balloc` the class
  `Disk` that frees and allocates; `Ownership` the invariant that ties set bits to the slots of `i_data`; `InodeBlocks` the
  class `Volume` with block mapping, truncation and deletion. Between the moment a slot is cleared and the moment its run is
  freed a block is *in flight*, and the invariant counts it.
- *Inodes* (ialloc.c, super.c, ext2.h). `Ialloc` has the group search and the inode bitmaps, `InodeTable` the accepted
  layouts and the place of every inode.
- *Names* (namei.c). `LinkTree`, `LinkMoves` and `Renames` treat the directories' maps and the link counts as values:
  which trees they form, what each change does to them, what a rename amounts to. `NameOps` and `Namei` run the operations
  on `Directory` objects, in the order of the code and with its rollback paths; `NameRuns` has whole runs, on values and on
  the objects, and the operations that undo each other.

**Lunix** (`OSLab/lunix/lunix`) receives sensor packets from a serial line and shows the measurements as files.

- *Protocol* (lunix-protocol.c). `PacketStream` is a one-byte automaton and the encoding it inverts (the 0x7D rule is the
  octet stuffing of section 4.2 of RFC 1662, the 0x7E rule is the module's own); `Protocol` the resumable parser with its
  nine states; `Delivery` whole streams.
- *Files* (lunix-sensors.c, lunix-chrdev.c). `Sensors` takes an update of the three buffers one store at a time; `CharDev`
  lets updates happen in every pause of a read; `SensorText` is the text of a measurement.

## Where the text of the code was settled

- dir.c:296 uses an undeclared `n`; the page index `i` is meant, as in the report (OSLab/Filesystems/Report/text.tex:574).
- inode.c:281 and :284 misspell `inodes_pg` and `eio`; the corrected lines are at text.tex:634 and :637.
- balloc.c:317 leaves `num` unset; it starts at zero, as at text.tex:785.
- lunix-protocol.c:145-150 gives up in its 50th round in debug builds only; the other build is modelled.

## What the code does otherwise than its comments say

Each of these is proved of the model, with the exact condition.

- A live record with an empty name, which `ext2_check_page` accepts, is split by `ext2_add_link` into a record that
  `ext2_check_page` refuses. A split keeps the page acceptable if and only if the record has a name
  (`DirChain.SplitChain`, `DirChain.SplitOfEmptyNameBreaksChain`). The invariant of `Directory` therefore asks that no live
  record has an empty name; no operation makes one.
- `ext2_new_blocks` hands `find_next_zero_bit_le` the number of the group's first block as the starting bit
  (balloc.c:320), not 0 as the comment at :300-305 has it, and tests only 16 bits of the counter (:358, :366). It succeeds
  if and only if the low 16 bits of the counter are not zero and group 0 has a clear bit at or behind index
  `s_first_data_block` (`Balloc.Disk.NewBlocks`); no free block of another group is ever found
  (`Ownership.FreeBlockNotFound`).
- `ext2_free_blocks` accepts runs that reach behind their group (`Ownership.SpillIsAccepted`) and then clears bits that are
  none of any group: the padding of the bitmap's block, and for a long run the memory behind it. The counts stay right if
  and only if none of those bits was set (`Balloc.Disk.FreeBlocks`). Files never free such a run
  (`Ownership.RunOfOrdinary`).
- `ext2_new_inode` refuses a number if and only if the least clear bit of the group it chooses is that of a reserved or
  nonexistent inode, and then leaves the bit set (`Ialloc.InodeGroups.NewInode`, `Ialloc.ReservedBitIsLost`).
- The inode table has a block for every inode of its group if and only if the inodes per group are a multiple of the inodes
  per block (`InodeTable.TableHoldsAll`); no mount check asks for it (`InodeTable.ShortTableMounts`). The end of a table is
  checked on 32 bits: a group that passes keeps its table to itself if and only if that end does not wrap
  (`InodeTable.PassesIsOwn`), and a table whose end wraps can be mounted (`InodeTable.WrappedTableMounts`). A
  mounted superblock describes a disk if it counts any blocks at all
  (`InodeTable.FillSuper`); one that counts none can be mounted (`InodeTable.NoBlocksMounts`).
- Bytes behind a packet end in the same buffer are lost (`Delivery.OverrunLosesBytes`). One call equals the byte-wise
  reference on its buffer if and only if those bytes would have changed neither parser nor sensors (`Delivery.LostTail`);
  a second packet is lost without a trace if and only if it repeats the first (`Delivery.LostPacket`).
- A measurement delivers bytes of an earlier packet if and only if it has fewer than 14 bytes of payload and names a sensor
  (`Delivery.ShortMeasurementReadsStaleBytes`). With 14, 15 or 16 it delivers bytes of its own checksum and end byte: the
  three words lie in the payload if and only if it has at least 17 (`Delivery.MeasurementInPayload`).
- A newer measurement is noticed if and only if its second differs from that of the one shown in the low 32 bits, which
  below 2^32 seconds means a later second (`CharDev.OpenFile.NoticedInALaterSecond`); one of the same second goes unnoticed
  (`CharDev.SameSecondIsMissed`). What is shown is always of a later second than before (`CharDev.RefreshesAdvance`). Every
  read copies from the start of the text (lunix-chrdev.c:302), so the reads of a text return its bytes in order if and only
  if at most one of them returns any (`CharDev.ShortReadsLoseText`, `CharDev.SignTwice`). The remainder is printed without
  leading zeros (`SensorText.RemainderIsNotPadded`).

## What is assumed

- Reads of pages, bitmaps and inode blocks succeed. Whether `ext2_prepare_chunk` succeeds is a parameter of
  `ext2_add_link` and `ext2_make_empty`; elsewhere a failure is a BUG_ON.
- The VFS looks names up before it creates them, does not move a directory below itself, and replaces only inodes of the
  same kind; `Renames.VfsAllows` and `Namei.Namespace.NewName` say this.
- The block whose number is `s_sb_block` is a metadata block (`Ownership.LayoutOk`). The field counts units of 1 KiB: with
  blocks of that size it names a superblock copy, with larger ones and the default 1 a block of group descriptors. At first
  only metadata blocks are in use.
- The memory behind a bitmap's block, which a long run handed to `ext2_free_blocks` reaches, holds nothing else of the
  model; its bits are an argument and a result.
- Lookup tables of sensor values are arbitrary, as long as every text fits `LUNIX_CHRDEV_BUFSZ`, as that of any value below
  10^17 does (`SensorText.TextIsShort`).
- Kernel primitives that find a clear bit or test and set one are modelled by what they return; masks with powers of two as
  the start of the chunk an offset lies in (`DirImage.ChunkBase`).

## Model

| member | source | states |
|---|---|---|
| `Directories.Directory.AddLink` | OSLab/Filesystems/Code/dir.c:378-468 | On every valid directory the scan ends: a new entry comes, disjoint from the old ones, or the name exists, or preparation failed, or a page is bad; the call never reaches BUG(). Old entries stay where they are, and a chunk is added at `i_size` if and only if no record of any page is dead and as long as one for the name, or has that much slack behind its own name. A failed call changes nothing below `i_size`. |
| `Directories.Directory.AddInRoom` | OSLab/Filesystems/Code/dir.c:443-460 | A dead record is reused or a live one is split, whose own entry stays at its place; the page is still acceptable and the new position held no entry. |
| `Directories.Directory.AddAtEnd` | OSLab/Filesystems/Code/dir.c:412-418 | A chunk grows the directory by exactly one entry behind all others; without preparation the header written past `i_size` has no effect. |
| `Directories.Directory.DeleteEntry` | OSLab/Filesystems/Code/dir.c:474-509 | Exactly the given entry goes, all others stay put; its position stays a record start if and only if it is the start of its chunk, otherwise the record is merged into its predecessor. |
| `Directories.Directory.SetLink` | OSLab/Filesystems/Code/dir.c:355-373 | Exactly the inode number of one entry changes. |
| `Directories.Directory.FindEntry` | OSLab/Filesystems/Code/dir.c:261-321 | A found position is a live entry of that name; "absent" means that every page is acceptable and none has the name; an I/O error means that some page is not acceptable. |
| `Directories.Directory.GetPage` | OSLab/Filesystems/Code/dir.c:149-163 | The result is whether the page is acceptable, whether it is checked now or was marked checked or failed before. |
| `Directories.Directory.MakeEmpty` | OSLab/Filesystems/Code/dir.c:514-550 | A new directory has exactly "." at 0 and ".." at 12, on an acceptable page. |
| `Directories.Directory.EmptyDir` | OSLab/Filesystems/Code/dir.c:555-601 | Empty if and only if every live entry is "." naming the directory itself or "..". |
| `Directories.Directory.DotDot` | OSLab/Filesystems/Code/dir.c:323-333 | While entries are live at 0 and 12, the result is 12. |
| `Directories.SecondAtTwelve` | OSLab/Filesystems/Code/dir.c:323-333 | No record starts inside a record, so a start at 12 makes the first record 12 bytes long. |
| `Directories.MergedAway` | OSLab/Filesystems/Code/dir.c:485-503 | After a merge the record is not a record start, although its bytes are still there. |
| `Directories.BadPageIsInside` | OSLab/Filesystems/Code/dir.c:81-87 | The page just past a directory that ends on a page boundary is always accepted, so an I/O error of the scan points at a bad page inside the directory. |
| `DirRuns.Perform` | OSLab/Filesystems/Code/dir.c:261-550 | One look-up followed by add, delete or set_link acts on the abstract map as insert, remove or overwrite of one key; entries of other names stay at their positions. |
| `DirRuns.Replay` | OSLab/Filesystems/Code/dir.c:355-509 | Any sequence of such operations takes the abstract map through the same sequence of map operations, and every page stays acceptable. |
| `DirRuns.ReplayFromEmpty` | OSLab/Filesystems/Code/dir.c:355-550 | The same from `ext2_make_empty` on. |
| `DirRuns.InodeByName` | OSLab/Filesystems/Code/dir.c:335-347 | Lookup of the abstract map. |
| `DirWalk.CheckPage` | OSLab/Filesystems/Code/dir.c:69-147 | Accepts a page if and only if its end is a chunk boundary and records that are long enough, aligned, inside one chunk and with inode numbers in range tile it. |
| `DirBytes.RecordBytes` | OSLab/Filesystems/Code/dir.c:88-104 | In bytes: a record is accepted if and only if its length is a multiple of four that holds header and name, ends in the chunk it starts in, and its inode number is in range. |
| `DirBytes.AcceptedPage` | OSLab/Filesystems/Code/dir.c:69-147 | An accepted page is cut into such records from its start to its end, or to that of the directory, which is a chunk boundary ... |
| `DirBytes.TiledPage` | OSLab/Filesystems/Code/dir.c:69-147 | ... and a page that can be cut so is accepted. |
| `DirBytes.EntryBytes` | OSLab/Filesystems/Code/ext2.h:243-249 | Number, name length and name of every live entry are the bytes at its position, low bytes first. |
| `DirBytes.RecordIsEntry` | OSLab/Filesystems/Code/dir.c:291-311 | Every record of an accepted page with an inode number is a live entry. |
| `DirChain.TilingIsChain` | OSLab/Filesystems/Code/dir.c:88-104 | A sequence of cut points that tile a stretch is a chain of `rec_len` fields ... |
| `DirChain.ChainIsTiling` | OSLab/Filesystems/Code/dir.c:88-104 | ... and a chain gives such cut points. |
| `DirChain.BoundaryIsStart` | OSLab/Filesystems/Code/dir.c:98-99 | Every chunk boundary on a chain is a record start. |
| `DirChain.NoStartInside` | OSLab/Filesystems/Code/dir.c:179-182 | Two record starts of a chain are at least a whole record apart. |
| `DirChain.SplitRecord` | OSLab/Filesystems/Code/dir.c:443-458 | Splitting leaves the old entry as it is, cut to its own size, with the new record in its slack. |
| `DirChain.SplitChain` | OSLab/Filesystems/Code/dir.c:443-458 | The split keeps the page acceptable if and only if the record that is split has a name. |
| `DirChain.SplitOfEmptyNameBreaksChain` | OSLab/Filesystems/Code/dir.c:429-451 | An accepted page on which one add leaves a page that is not accepted: a live record with an empty name. |
| `DirChain.MergeChain` | OSLab/Filesystems/Code/dir.c:500-502 | A merged record is acceptable and keeps its predecessor's entry. |
| `DirChain.RelinkChain` | OSLab/Filesystems/Code/dir.c:366-367 | Overwriting an inode number keeps the record acceptable. |
| `DirChain.FillRecord` | OSLab/Filesystems/Code/dir.c:454-457 | A record keeps its length and gets the new name and inode number. |
| `DirWalk.FindInPage` | OSLab/Filesystems/Code/dir.c:291-311 | Finds the name on an acceptable page if and only if it is there. |
| `DirWalk.EarlyStop` | OSLab/Filesystems/Code/dir.c:296-297 | The stop at `last_byte - reclen` misses nothing: less than a record for the name is left. |
| `DirWalk.FindRoom` | OSLab/Filesystems/Code/dir.c:408-436 | A name, the first record that is dead and long enough or has the slack, the end of the directory, or a page without such a record that is full to its last byte. |
| `DirWalk.FindPrevious` | OSLab/Filesystems/Code/dir.c:478-495 | The predecessor of a record in its chunk, or none exactly for the chunk's first record. |
| `DirWalk.EmptyInPage` | OSLab/Filesystems/Code/dir.c:573-593 | The test of one page for entries other than the dots. |
| `DirWalk.EmptyChunk` | OSLab/Filesystems/Code/dir.c:531-544 | The bytes of the first chunk are the two records of the dots. |
| `DirWalk.ValidateEntry` | OSLab/Filesystems/Code/dir.c:184-195 | The result is a record start at or after the saved offset, and no live entry lies between them. |
| `DirWalk.EmitPage` | OSLab/Filesystems/Code/dir.c:230-249 | Emits the live entries between two record starts in order, and stops at the first one refused. |
| `DirEdits.RewriteRun` | OSLab/Filesystems/Code/dir.c:443-509 | Rewriting a run of records into a run of records changes the directory's entries as it changes the run's, and keeps the page acceptable. |
| `DirPages.GrowEntries` | OSLab/Filesystems/Code/dir.c:412-460 | A chunk added at `i_size` adds exactly its own entry. |
| `DirPages.PageFrame` | OSLab/Filesystems/Code/dir.c:149-163 | Acceptance and entries of a page depend only on its own bytes below `i_size`. |
| `DirPages.EntryAtOnePlace` | OSLab/Filesystems/Code/dir.c:179-182 | A position holds at most one entry. |
| `DirImage.DirRecLen` | OSLab/Filesystems/Code/ext2.h:255-257 | The least multiple of four that holds header and name. |
| `DirImage.PageIsBoundary` | OSLab/Filesystems/Code/dir.c:19-22 | Pages hold whole chunks. |
| `ReadDir.OpenDir.Read` | OSLab/Filesystems/Code/dir.c:197-253 | One call emits, in order, exactly the live entries between the old and the new position; unless it was refused or met a bad page there are no more. |
| `ReadDir.Enumerate` | OSLab/Filesystems/Code/dir.c:184-253 | An entry that stays live throughout an enumeration over any number of calls, with adds, deletes and set_links of other names between them, is emitted exactly once: never twice, and once some call has come back short it has been emitted. |
| `ReadDir.EmittedMore` | OSLab/Filesystems/Code/dir.c:221-249 | An entry at a fixed position is emitted by the call that passes it and by no other. |
| `Geometry.GroupsPartition` | OSLab/Filesystems/Code/ext2.h:338-356 | A block lies between the first and the last block of a group if and only if it is on the disk and that is the group computed from its number. |
| `Geometry.Locate` | OSLab/Filesystems/Code/balloc.c:255-256 | Every block on the disk lies at the computed bit of the computed group. |
| `Geometry.MetadataMeans` | OSLab/Filesystems/Code/balloc.c:451-463 | Metadata are, of each group, the superblock copy with the descriptor blocks behind it, the two bitmaps and the inode table. |
| `BlockMap.UsedMeans` | OSLab/Filesystems/Code/balloc.c:255-256 | A block is in use if and only if the bit is set that its distance from the first data block leads to. |
| `BlockMap.UsedAfterRun` | OSLab/Filesystems/Code/balloc.c:278-283 | Marking a run changes the state of exactly its blocks. |
| `Balloc.Disk.AcceptedRuns` | OSLab/Filesystems/Code/balloc.c:146-201 | A run is refused if and only if it is empty, does not lie behind the first data block and on the disk, touches the superblock in use or a bitmap of the group it starts in, or has an end in that group's table. |
| `Balloc.Disk.FreeBlocks` | OSLab/Filesystems/Code/balloc.c:237-298 | A run that passes both checks is cleared bit by bit, counted only where bits were set, and `i_blocks` falls by the sectors freed; otherwise nothing changes. A run inside its group leaves counts and counter equal to the clear bits; one that reaches behind it clears and counts the bits that follow the group's, in the padding and then in the memory behind the bitmap's block, and leaves the counts right if and only if none of those bits was set. |
| `Balloc.Disk.GroupUpdateFreeBlocks` | OSLab/Filesystems/Code/balloc.c:121-136 | The 16-bit group count and the counter follow a change of the bitmap, and are right if and only if no bits behind the group were counted. |
| `BlockMap.CountsFollow` | OSLab/Filesystems/Code/balloc.c:121-136 | No 16-bit count wraps: a group has at most 8 * blocksize blocks. |
| `Balloc.Disk.CountFreeBlocks` | OSLab/Filesystems/Code/balloc.c:429-442 | The sum over the groups equals the counter. |
| `Balloc.Disk.AllocateInBg` | OSLab/Filesystems/Code/balloc.c:310-340 | Whatever bits other allocators take between its test-and-sets, success returns a run inside the group of between 1 and `count` bits, each clear until this call set it, and it sets no other bit. Run alone, it fails if and only if no bit from its start on is clear, and the run is the first and as long as possible. |
| `Balloc.Disk.NewBlocks` | OSLab/Filesystems/Code/balloc.c:348-424 | Succeeds if and only if the low 16 bits of the counter are not zero and group 0 has a clear bit at or behind the index `s_first_data_block`; the run was free, is the first of group 0, is the only thing taken, and all counts follow. |
| `Ownership.FreeBlockNotFound` | OSLab/Filesystems/Code/balloc.c:320 | For every ordinary block behind group 0: a state of the ownership invariant in which it is the one free block, and in which `ext2_new_blocks` finds nothing. |
| `Ownership.SpillIsAccepted` | OSLab/Filesystems/Code/balloc.c:249-276 | The last block of a group and the superblock copy behind it pass both checks as one run, unless that copy is the one in use. |
| `Balloc.SearchStart` | OSLab/Filesystems/Code/balloc.c:320 | The start of the search lies inside the group only for group 0. |
| `Ownership.NoBlockHeldTwice` | OSLab/Filesystems/Code/inode.c:26-73 | In every state of the invariant the used blocks are exactly the metadata blocks and the blocks held by inodes, and no block is held by two slots. |
| `Ownership.RunOfOrdinary` | OSLab/Filesystems/Code/balloc.c:451-454 | A run of blocks that files own never crosses a group boundary and passes both checks of `ext2_free_blocks`, because every group begins with a superblock copy. |
| `Ownership.GroupStartIsMeta` | OSLab/Filesystems/Code/balloc.c:451-463 | The first block of each group is a superblock copy. |
| `Ownership.Unslot` | OSLab/Filesystems/Code/inode.c:208-211 | Taking a block off its slot keeps ownership and accounting, the block being in flight. |
| `Ownership.Land` | OSLab/Filesystems/Code/inode.c:218-228 | Freeing the run in flight keeps ownership and accounting. |
| `Ownership.Acquire` | OSLab/Filesystems/Code/inode.c:59-64 | A free block becomes the block of an empty slot, and `i_blocks` follows. |
| `InodeBlocks.Volume.FreeData` | OSLab/Filesystems/Code/inode.c:203-230 | Freeing in coalesced runs leaves the bitmaps exactly as freeing every slot's block on its own would; all slots end zero; no run crosses a group. |
| `InodeBlocks.Volume.FreeSlot` | OSLab/Filesystems/Code/inode.c:208-223 | One round: what has been freed and what is in flight together are the blocks of the slots so far. |
| `InodeBlocks.Volume.TruncateBlocks` | OSLab/Filesystems/Code/inode.c:233-249 | Exactly the slots at and beyond the offset give up their blocks, and exactly those blocks are freed; inodes without block maps are left alone. |
| `InodeBlocks.Volume.GetBlocks` | OSLab/Filesystems/Code/inode.c:26-73 | The block of the slot, a hole, a newly allocated block that was free and belongs to nobody else, an error beyond the direct blocks, or ENOSPC exactly when `ext2_new_blocks` finds nothing. |
| `InodeBlocks.Volume.Evict` | OSLab/Filesystems/Code/inode.c:473-500 | A deleted inode's blocks, and no others, become free. |
| `InodeBlocks.Volume.WriteFastLink` | OSLab/Filesystems/Code/namei.c:151-156 | The text of a fast symlink in `i_data` is not mistaken for block numbers. |
| `InodeBlocks.Run` | OSLab/Filesystems/Code/inode.c:26-249 | After any sequence of creations, block writes, truncations and deletions: used blocks are the metadata and the held blocks, no block is held twice, `i_blocks` is held blocks times blocksize / 512, and the counters equal the clear bits. |
| `Ialloc.InodeGroups.FindGroup` | OSLab/Filesystems/Code/ialloc.c:114-166 | -1 if and only if no group counts a free inode; otherwise the parent's group if it has a free inode and block, else the first such group of the quadratic walk, else the first group behind the parent's with a free inode. |
| `Ialloc.InodeGroups.ParentFirst` | OSLab/Filesystems/Code/ialloc.c:120-126 | The choice is the parent's group if it has a free inode and a free block; ... |
| `Ialloc.InodeGroups.WalkSecond` | OSLab/Filesystems/Code/ialloc.c:140-150 | ... else the first with both among those 1, 3, 7, ... behind the sum of the parent's group and number, modulo the groups; ... |
| `Ialloc.InodeGroups.LinearLast` | OSLab/Filesystems/Code/ialloc.c:156-165 | ... and if there is none, the first behind the parent's with a free inode, in cyclic order. |
| `Ialloc.InodeGroups.QuadraticWalk` | OSLab/Filesystems/Code/ialloc.c:140-150 | Stays in range and finds the first attractive group among the parent's plus 1, 3, 7, ..., if there is one. |
| `Ialloc.InodeGroups.LinearWalk` | OSLab/Filesystems/Code/ialloc.c:156-165 | Visits every group once, and finds the first behind the parent's with a free inode. |
| `Ialloc.InodeGroups.NewInode` | OSLab/Filesystems/Code/ialloc.c:171-295 | Run alone, ENOSPC if and only if every inode bit is set, and EIO if and only if the least clear bit of the group that the policy chooses belongs to a reserved or nonexistent inode; that bit then stays set with the counts unchanged. Otherwise the new number is that of this bit, in range, and counts and directory counts follow. |
| `Ialloc.InodeGroups.RefusesMeans` | OSLab/Filesystems/Code/ialloc.c:251-257 | A number is refused if and only if that of the least clear bit of the chosen group lies outside `s_first_ino` to `s_inodes_count`. |
| `Ialloc.InodeGroups.OneOffer` | OSLab/Filesystems/Code/ialloc.c:190-243 | The policy leads to at most one bit. |
| `Ialloc.ReservedBitIsLost` | OSLab/Filesystems/Code/ialloc.c:251-257 | A state in which a number is refused, and after which the counts no longer equal the clear bits. |
| `Ialloc.InodeGroups.FreeInode` | OSLab/Filesystems/Code/ialloc.c:76-109 | Clears bit and counts of a used inode; a number that is reserved, nonexistent, without a group or free changes nothing. |
| `Ialloc.InodeGroups.InUseMeans` | OSLab/Filesystems/Code/ialloc.c:87-99 | What is freed: a number from `s_first_ino` to `s_inodes_count`, of a group that exists, with its bit set. |
| `Ialloc.InodeGroups.NewThenFree` | OSLab/Filesystems/Code/ialloc.c:49-109 | In every state, freeing a new inode restores bitmap and counters; only a refused number leaves a trace. |
| `Ialloc.InodeGroups.NumberOfBit` | OSLab/Filesystems/Code/ialloc.c:251-252 | Inode number and (group, bit) determine each other. |
| `Ialloc.CountsFollowBit` | OSLab/Filesystems/Code/ialloc.c:259-267 | The 16-bit counts equal the clear bits after one bit changes, without wrapping. |
| `InodeTable.FillSuper` | OSLab/Filesystems/Code/super.c:603-655 | Mounts if and only if the inode size is a power of two from 128 to the block size, the group sizes fit one bitmap block and are not zero, and every descriptor passes; the geometry is the superblock's. If it counts any blocks, they reach behind the first data block, and a group keeps bitmaps and table to itself if and only if its table's end does not wrap at 32 bits. |
| `InodeTable.MountableMeans` | OSLab/Filesystems/Code/super.c:603-655 | The condition of a mount in numbers: inode sizes 128 to 4096 and at most the block size, group sizes, and in every group both bitmaps and the table between its first and last block. |
| `InodeTable.NoBlocksMounts` | OSLab/Filesystems/Code/super.c:653-655 | A superblock that counts no blocks is mounted: both subtractions wrap. |
| `InodeTable.ShortTableMounts` | OSLab/Filesystems/Code/super.c:603-655 | A superblock that is mounted although its inode table has no block for the last inode. |
| `InodeTable.WrappedTableMounts` | OSLab/Filesystems/Code/super.c:190-214 | A superblock that is mounted although the end of its inode table wraps at 32 bits, so that the table does not lie in the group. |
| `InodeTable.CheckDescriptors` | OSLab/Filesystems/Code/super.c:177-217 | Accepts if and only if every group passes its round. |
| `InodeTable.PassesIsOwn` | OSLab/Filesystems/Code/super.c:190-214 | A group passes without a wrap at 32 bits if and only if bitmaps and table lie in the group. |
| `InodeTable.TableHoldsAll` | OSLab/Filesystems/Code/super.c:624 | Every inode of a group has a block in the group's table if and only if inodes per group is a multiple of inodes per block. |
| `InodeTable.InodeAddress` | OSLab/Filesystems/Code/inode.c:265-290 | An inode lies as many inode sizes into its group's table as its number is behind the group's first; refused are numbers below `s_first_ino` other than 2, and those above `s_inodes_count`. |
| `InodeTable.InodeInBlock` | OSLab/Filesystems/Code/inode.c:279-290 | An inode lies in one block and does not cross its end. |
| `InodeTable.InodeInOwnTable` | OSLab/Filesystems/Code/inode.c:265-290 | Every valid inode is placed in one block of its own group's table. |
| `InodeTable.EveryInodeHasPlace` | OSLab/Filesystems/Code/inode.c:265-277 | Exactly the root and the numbers that are not reserved have a place, up to `s_inodes_count`. |
| `InodeTable.InodesAreDisjoint` | OSLab/Filesystems/Code/inode.c:271-290 | Distinct inodes get disjoint byte ranges. |
| `Namei.Namespace.Create` | OSLab/Filesystems/Code/namei.c:14-50 | A new inode gets its name and one link; on failure of inode or entry everything is as before. |
| `Namei.Namespace.Link` | OSLab/Filesystems/Code/namei.c:79-99 | One more name and one more link, or, when the entry fails, neither. |
| `Namei.Namespace.Unlink` | OSLab/Filesystems/Code/namei.c:101-123 | One name and one link less; an absent name changes nothing. |
| `Namei.Namespace.Mkdir` | OSLab/Filesystems/Code/namei.c:170-207 | A directory with its dots appears under the name, with two links and one more for the parent; each of the rollback paths restores tree and counts. |
| `Namei.Namespace.NewDir` | OSLab/Filesystems/Code/namei.c:177-202 | `out_fail` takes back both links and the inode. |
| `Namei.Namespace.Rmdir` | OSLab/Filesystems/Code/namei.c:209-225 | ENOTEMPTY if and only if other entries than the dots are left; otherwise directory and name go, its count ends at zero and the parent's falls by one. |
| `Namei.Namespace.Rename` | OSLab/Filesystems/Code/namei.c:245-327 | Each of the five endings if and only if: the old name is missing; a directory to be replaced holds more than the dots; a name to be replaced is missing; a new entry cannot be prepared; or, else, the rename is done, between any two directories. It then leaves exactly the tree and the counts of `RenamedTree` and `RenamedLinks`, with ".." and the counts of both parents right; a failed one leaves all as it was. |
| `Renames.RenameEnds` | OSLab/Filesystems/Code/namei.c:253-302 | The same of the value semantics: done if and only if the rename is possible and a new entry can be prepared. |
| `Renames.RenamedEntries` | OSLab/Filesystems/Code/namei.c:273-313 | Entry by entry: the new name leads to the inode, the old one is gone, ".." of a directory leads to the new parent, a directory that gave way is gone, and all else is as before. |
| `Namei.Namespace.Replace` | OSLab/Filesystems/Code/namei.c:273-290 | The first half onto an existing name: empty check, overwriting, and the links the target loses. |
| `Namei.Namespace.Place` | OSLab/Filesystems/Code/namei.c:291-297 | The first half onto a free name. |
| `Namei.Namespace.Clear` | OSLab/Filesystems/Code/namei.c:303-313 | The second half: the record found at the start is still the old name's and goes; a directory gets its new parent. |
| `Namei.StillThere` | OSLab/Filesystems/Code/namei.c:260-313 | Adding or overwriting one entry leaves the records found earlier where they were found, even if one of them was split. |
| `Namei.Namespace.Evict` | OSLab/Filesystems/Code/inode.c:473-500 | A number without links is in no table and may be used again. |
| `NameOps.AddName` | OSLab/Filesystems/Code/dir.c:378-468 | Adding a looked-up name succeeds if the chunk can be prepared, and is an insertion into the directory's map. |
| `NameOps.FindDotDot` | OSLab/Filesystems/Code/dir.c:323-333 | In a directory made by `ext2_make_empty` the record found is that of "..", after any operations. |
| `LinkMoves.AddDir` | OSLab/Filesystems/Code/namei.c:170-207 | A new directory keeps the directories a tree in which ".." leads to the directory that holds the name. |
| `LinkMoves.RemoveDir` | OSLab/Filesystems/Code/namei.c:209-225 | Taking an empty directory out keeps that tree. |
| `LinkMoves.MoveDir` | OSLab/Filesystems/Code/namei.c:291-313 | Moving a directory that does not contain its new parent keeps that tree, with every ".." right. |
| `LinkMoves.CountAddDir` | OSLab/Filesystems/Code/namei.c:175-192 | Link counts equal the entries naming each inode after mkdir. |
| `LinkMoves.CountRemoveDir` | OSLab/Filesystems/Code/namei.c:217-223 | The same after rmdir. |
| `LinkMoves.CountMoveDir` | OSLab/Filesystems/Code/namei.c:291-313 | The same after a directory has moved. |
| `Renames.RenameKeepsDir` | OSLab/Filesystems/Code/namei.c:245-327 | Tree and counts after any allowed rename of a directory, also over an empty one. |
| `Renames.RenameKeepsPlain` | OSLab/Filesystems/Code/namei.c:245-327 | Tree and counts after any allowed rename of another inode, also over one. |
| `Renames.TreeInSteps` | OSLab/Filesystems/Code/namei.c:273-313 | The order of the code's edits, including the skipped ".." within one directory, amounts to the rename. |
| `Renames.LinksInSteps` | OSLab/Filesystems/Code/namei.c:286-312 | The code's increments and decrements amount to the rename's counts. |
| `Renames.RmdirKeeps` | OSLab/Filesystems/Code/namei.c:209-225 | An empty directory has exactly two links, and removing it keeps tree and counts. |
| `LinkTree.EverythingBelowRoot` | OSLab/Filesystems/Code/namei.c:170-225 | From every directory ".." leads to the root after finitely many steps. |
| `NameRuns.StepKeeps` | OSLab/Filesystems/Code/namei.c:14-327 | Every call that the VFS may make, also one that fails, keeps tree and counts. |
| `NameRuns.Perform` | OSLab/Filesystems/Code/namei.c:14-327 | Every operation on the directories themselves does what the value semantics says. |
| `NameRuns.Replay` | OSLab/Filesystems/Code/namei.c:14-327 | Any run of calls, with whatever failures and rollbacks, takes directories and counts where the value semantics says. |
| `NameRuns.ReplayFromRoot` | OSLab/Filesystems/Code/namei.c:14-327 | The same from an empty root, with the counts and parents of `NameRuns.EveryRun`. |
| `NameRuns.EveryRun` | OSLab/Filesystems/Code/namei.c:14-327 | After any run from an empty root: every link count is the number of entries naming the inode, and every directory but the root is named by exactly the directory its ".." names. |
| `NameRuns.RenameInPlace` | OSLab/Filesystems/Code/namei.c:260-313 | Inside one directory, onto a fresh name: the old map without the old name and with the new one, counts unchanged. |
| `NameRuns.RenameBack` | OSLab/Filesystems/Code/namei.c:245-327 | A rename onto a fresh name is undone by the rename back. |
| `NameRuns.RmdirUndoesMkdir` | OSLab/Filesystems/Code/namei.c:170-225 | Removing a new directory restores tree and counts. |
| `NameRuns.UnlinkUndoesLink` | OSLab/Filesystems/Code/namei.c:79-123 | Unlinking a new link restores tree and counts. |
| `PacketStream.RoundTrip` | OSLab/lunix/lunix/lunix-protocol.c:86-98 | For every packet laid out as documented and every stuffing of its fields, the automaton recovers the packet whatever was in the memory before, and consumes exactly its bytes. |
| `PacketStream.EncodingBytes` | OSLab/lunix/lunix/lunix-protocol.c:151-193 | An encoding byte by byte: start, type and end byte as they are; any other as it is unless it is 0x7D or 0x7E, or behind 0x7D flipped, or behind 0x7E. |
| `PacketStream.StuffingIsUnambiguous` | OSLab/lunix/lunix/lunix-protocol.c:160-193 | No encoding of a packet is a prefix of another's. |
| `PacketStream.ConsumeAppend` | OSLab/lunix/lunix/lunix-protocol.c:134-205 | The automaton resumes at any cut of a buffer. |
| `PacketStream.ConsumedWhole` | OSLab/lunix/lunix/lunix-protocol.c:212-268 | A buffer is heard whole if and only if no shorter part of it completes a packet. |
| `Protocol.ProtocolState.ReadByte` | OSLab/lunix/lunix/lunix-protocol.c:151-193 | One round of the parser is one step of the one-byte automaton; the overflow guard never fires. |
| `Protocol.ProtocolState.ParseState` | OSLab/lunix/lunix/lunix-protocol.c:134-205 | The rest of one field, or of the buffer, is so many steps of the automaton; a finished field has no pending escape. |
| `Protocol.ProtocolState.FieldIsSane` | OSLab/lunix/lunix/lunix-protocol.h:21-39 | In every reachable state the position is the field's start plus the bytes read, below 265 while a field is unfinished. |
| `Protocol.ProtocolState.ReceivedBuf` | OSLab/lunix/lunix/lunix-protocol.c:212-268 | For every reachable state and every buffer: the fold of the automaton up to and including the first byte that completes a packet, then delivery, then a fresh start. |
| `Protocol.ProtocolState.UpdateSensors` | OSLab/lunix/lunix/lunix-protocol.c:58-84 | A packet with 0x0B at 4 gives the sensor numbered at 9 and 10 the words at 18, 20 and 22, low bytes first; any other changes nothing. |
| `Protocol.ProtocolState.PayloadLength` | OSLab/lunix/lunix/lunix-protocol.c:241-245 | The length byte just read decides the length of the payload. |
| `Delivery.ReceiveIsStream` | OSLab/lunix/lunix/lunix-protocol.c:212-268 | One call is the byte-wise reference on the part of the buffer that is heard. |
| `Delivery.ReceiveAllIsStream` | OSLab/lunix/lunix/lunix-protocol.c:212-268 | Any sequence of calls is the reference on what is heard of the buffers. |
| `Delivery.CuttingIsIrrelevant` | OSLab/lunix/lunix/lunix-protocol.c:212-268 | Two cuttings of a stream, neither running past a packet end, give the same parser and sensors. |
| `Delivery.PacketIsDelivered` | OSLab/lunix/lunix/lunix-protocol.c:212-268 | A packet, however stuffed and cut, is delivered once, and the parser is ready for the next. |
| `Delivery.MeasurementArrives` | OSLab/lunix/lunix/lunix-protocol.c:58-84 | A measurement of at least 14 payload bytes gives the sensor numbered by its bytes 9 and 10 the words at its bytes 18, 20 and 22, low bytes first, and changes no other. |
| `Delivery.MeasurementUpdates` | OSLab/lunix/lunix/lunix-protocol.c:58-84 | The same of the parser object, for any stuffing and any cut into buffers. |
| `Delivery.Transmit` | OSLab/lunix/lunix/lunix-protocol.c:212-268 | Any sequence of calls on the parser object is the sequence on values. |
| `Bytes.Le16Halves` | OSLab/lunix/lunix/lunix-protocol.c:27-33 | Of two bytes the first is the low half, the second the high one. |
| `Delivery.MeasurementInPayload` | OSLab/lunix/lunix/lunix-protocol.c:86-98 | The words lie in the payload if and only if it has at least 17 bytes, and in the packet if and only if it has at least 14. |
| `Delivery.OtherPacketIsIgnored` | OSLab/lunix/lunix/lunix-protocol.c:67-83 | A foreign type or an unknown node changes no sensor. |
| `Delivery.LostTail` | OSLab/lunix/lunix/lunix-protocol.c:212-268 | One call equals the byte-wise reference on its whole buffer if and only if the unheard tail would leave parser and sensors as they are; a tail that does not end with a packet always matters. |
| `Delivery.LostPacket` | OSLab/lunix/lunix/lunix-protocol.c:255-263 | Two packets in one buffer: the call equals the byte-wise reference if and only if they are the same packet, whatever the stuffing of each. |
| `Delivery.RepetitionIsHarmless` | OSLab/lunix/lunix/lunix-protocol.c:212-268 | Any packet sent twice in one buffer: the second is lost, and nothing would be different. |
| `Delivery.OverrunLosesBytes` | OSLab/lunix/lunix/lunix-protocol.c:255-263 | A stream whose bytes behind a packet end are lost when they share its buffer. |
| `Delivery.ShortMeasurementReadsStaleBytes` | OSLab/lunix/lunix/lunix-protocol.c:67-79 | What a packet delivers depends on earlier packets if and only if it is a measurement with fewer than 14 payload bytes that names a sensor. |
| `Bytes.Xor20IsXor` | OSLab/lunix/lunix/lunix-protocol.c:166-167 | The escape's flip is exclusive or with 0x20 on eight bits. |
| `Sensors.Sensor.WriteNext` | OSLab/lunix/lunix/lunix-sensors.c:77-90 | After each store of an update every buffer holds old or new value and timestamp as its turn has come; at the end the update is complete in all three. |
| `Sensors.Sensor.UpdateAlone` | OSLab/lunix/lunix/lunix-sensors.c:74-96 | All three buffers hold the new values with one timestamp. |
| `Sensors.Sensor.Run` | OSLab/lunix/lunix/lunix-sensors.c:74-96 | Whatever happens beside a reader, completed updates stay in order and no timestamp goes back. |
| `CharDev.OpenFile.StateUpdate` | OSLab/lunix/lunix/lunix-chrdev.c:67-143 | With updates between any of its steps: either -EAGAIN, no change and the cached timestamp the sensor's, or text, length and timestamp are those of the newest completed update. Run alone, -EAGAIN if and only if the timestamp is the cached one. |
| `CharDev.OpenFile.Fill` | OSLab/lunix/lunix/lunix-chrdev.c:100-137 | The cached text, its length and its timestamp come from one single update. |
| `CharDev.OpenFile.LaterThanShown` | OSLab/lunix/lunix/lunix-chrdev.c:49-57 | A timestamp other than the cached one stands for a later update, in the middle of an update as well. |
| `CharDev.OpenFile.AwaitFresh` | OSLab/lunix/lunix/lunix-chrdev.c:273-289 | The wait ends with the newest completed update, or with a signal, nothing changed and no other timestamp there than the cached one. |
| `CharDev.OpenFile.Read` | OSLab/lunix/lunix/lunix-chrdev.c:250-320 | The text is replaced only at position 0; the count is what is asked for or what is left; the position stays below the end and rewinds there; the bytes are those at the start of the text. |
| `CharDev.RefreshesAdvance` | OSLab/lunix/lunix/lunix-chrdev.c:67-143 | Over the life of a file every refresh shows a strictly later update than all before, also when the 32 bits of the timestamps wrap. |
| `CharDev.CountsAddUp` | OSLab/lunix/lunix/lunix-chrdev.c:298-314 | The counts since leaving position 0 add up to the position. |
| `CharDev.CountsToRewind` | OSLab/lunix/lunix/lunix-chrdev.c:298-314 | From leaving position 0 to rewinding they add up to the length of the text. |
| `CharDev.OpenFile.NoticedInALaterSecond` | OSLab/lunix/lunix/lunix-chrdev.c:49-57 | A newer update is noticed if and only if its second and that of the one shown differ in the low 32 bits; while the clock fits them, if and only if it fell into a later second. |
| `CharDev.SameSecondIsMissed` | OSLab/lunix/lunix/lunix-chrdev.c:49-57 | An update of the second that is shown already goes unnoticed. |
| `CharDev.ShortReadsLoseText` | OSLab/lunix/lunix/lunix-chrdev.c:302 | However many reads a text is taken in, they return its bytes in order if and only if at most one of them returns any. |
| `CharDev.SignTwice` | OSLab/lunix/lunix/lunix-chrdev.c:302-314 | Two reads of one byte both return the sign. |
| `SensorText.TextSays` | OSLab/lunix/lunix/lunix-chrdev.c:124-136 | '+' unless the value is negative, then thousands and remainder of its magnitude in digits without leading zeros, with a comma between. |
| `SensorText.TextIsShort` | OSLab/lunix/lunix/lunix-chrdev.c:133-136 | The text of any value below 10^17 fits the buffer. |
| `SensorText.TextIsFaithful` | OSLab/lunix/lunix/lunix-chrdev.c:124-136 | Different measurements have different texts. |
| `SensorText.RemainderIsNotPadded` | OSLab/lunix/lunix/lunix-chrdev.c:133-136 | Read as a decimal fraction the digits behind the comma are right if and only if the remainder is zero or at least 100. |

## Left out

- Buffer and page cache, writeback, dirty flags, page references, I/O errors and memory shortage: calls into the kernel.
- Locks other than the sensor's spinlock, and concurrent use of one directory, one volume or one open sensor file; of the
  allocators only `ext2_allocate_in_bg` runs against others.
- Timestamps, permissions, byte order and `file_type` of the filesystem's structures.
- The 32 bits of link counts and block numbers and the 16 bits of the link count on disk: these are unbounded here.
- Symlink targets other than the copy of a fast one, `ext2_lookup`'s name length check, and rename flags (any flag but
  RENAME_NOREPLACE is refused).
- The checks of `ext2_read_block_bitmap`, insertion of a new inode into the inode cache, and generation numbers.
- Mount options, remount, statfs, superblock state and magic numbers; the descriptor blocks are given to `FillSuper`.
- The link between `ext2_new_inode`'s numbers and the names: `Namei` takes any unused number, or none.
- `ext2_iget`, `ext2_write_inode`, setattr and getattr: copying of fields.
- A sensor file of a kind other than the three measurements, ioctl, mmap and release.
- The debug build of the protocol parser, and its second return value.
- Terminal setup and registration (lunix-attach.c, lunix-ldisc.c, lunix-module.c), the stub lunix-chrdev2.c, the generator of
  the lookup tables, and the rest of the repository's exercises, drivers and reports.
- Balloc.Disk.NewBlocks: run alone; with other allocators between its steps only `Balloc.Disk.AllocateInBg` is proved.
- Ialloc.InodeGroups.NewInode: run alone; the races of ialloc.c:213-234 do not occur.
- CharDev.OpenFile.Read: one reader for an open file, so that the position is its own.
