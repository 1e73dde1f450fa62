# Forking.c storage engine in Dafny

This project models the storage engine of the single-image toy filesystem in
`Forking.c` and proves properties about it.

The filesystem is a fixed arena of 4226 blocks of 8192 bytes. The state it keeps:

- a directory table of 128 entries, each a name bound to an inode slot;
- an inode table of 128 inodes, each with a size, two flags (hidden and read-only), a time stamp and a chain of up to 1250 block numbers terminated by -1 unless it fills all 1250 slots;
- a free-block bitmap. Blocks 0..13 hold the tables and are permanently marked used.

The file commands work on this state in place:

- `put` stores a host file;
- `get` retrieves a file to the host;
- `del` deletes a file;
- `attrib` toggles the hidden or read-only flag;
- `list` shows the visible entries;
- `df` reports free space.

They are built from three first-fit allocators (block, inode, directory slot), a lookup by name and a file-name validator.

The model is a `class FileSystem` whose arrays `dir`, `inodes`, `used` and `blocks` are updated in place by methods with loops that mirror the source. Those methods are proved against functions over the arrays' contents:

- `CountFree` and `FirstFree` for the bitmap and the allocators;
- `FindEntry` for lookup;
- `ReadChain` for the bytes a chain holds;
- `Visible` for the listing;
- `FileOf` and `AttrsOf` for a name's contents and flags.

The invariant the commands preserve is `FsState.Consistent`:

- every chain lies in the data area (never in blocks 0..13) and has exactly `ceil(size / 8192)` blocks followed by -1 unless it fills all 1250 slots;
- every block of a chain is marked used;
- chains are pairwise disjoint;
- valid names are unique and valid;
- free inodes are blank.

Disjointness and the absence of leaked blocks are carried by a ghost map `owner` from each block to the chain slot it is recorded in. The invariant tracks leaks for blocks only: it does not forbid a valid inode that no entry names. Each command's contract instead states its exact table changes, and none leaves such an inode behind. `FileSystem.constructor` and `CreateFs` leave every directory slot blank and every inode free. `Store` states the change as `Transitions.Placed`, `Delete` as `Transitions.Deleted`, and `Attribute` as the update of the one flag of the named file's inode.

Modules:

- `Layout`: the constants and the records.
- `Bitmap`: free counts and first-fit.
- `Names`: the name validator.
- `ByteChain`: how bytes are laid out over a chain.
- `Tables`: lookup and listing.
- `FsState`: the invariant and file contents.
- `Transitions`: how each command's table update carries the invariant.
- `FileSystem`: the class.
- `Scenarios`: command sequences.
- `AsWritten`: the behaviour of the source as written where it departs from what it evidently intends.

The model deliberately departs from the code in these places:

- **`putFile` is atomic.** It allocates exactly `ceil(L / 8192)` blocks. On a failed claim or a read error it undoes every claim.
- **A failed claim is reported.** When no directory slot, inode or block can be claimed, the source prints nothing and keeps whatever it did claim (`Forking.c:243-253`). The model's store reports `TableFull` and changes no table.
- **`delFile` clears the directory slot the lookup found.** The source clears `dir[inodeIndex]` (`Forking.c:409-411`). In the model, directory and inode slots are claimed first-fit in lock step, so the two indices always coincide. In the source they need not. A 32-character name is bound to inode 0 instead of its own inode (see Findings). The inode table also overlays data blocks (see Left out), so file bytes can rewrite inode fields. In such states the source's delete blanks another file's entry.
- **`findFileDirectoryIndex` matches only valid entries.** The source compares against every entry. Invalid entries carry the empty name, which no command's tokenizer produces, so this difference is latent too.
- **`getFile` reads the inode's size and defaults the output name to the stored name.** The source uses the host `stat` size. It also copies into a NULL name, a path `main` never takes.
- **`freeInodeList` is left out.** The source writes it when a store claims an inode and when a delete frees one (`Forking.c:254`, `Forking.c:407`). Nothing reads it: `findFreeInode` tests and sets `inodes[i].valid` alone (`Forking.c:84-93`). The model keeps only the inode's flag.
- **`checkname` comes first.** `main` checks the name before dispatching, so each command checks its name first and reports `NameInvalid`.

## Model

| member | source | states |
|---|---|---|
| Layout.BlocksNeeded | Forking.c:259-274 | the blocks a file of `size` bytes occupies cover its bytes and leave less than one block unused |
| Layout.MaxFileFillsChain | Forking.c:29-36 | a file of MAX_FILE_SIZE bytes needs exactly the 1250 chain slots an inode has |
| Layout.BlocksNeededIndex | Forking.c:334-357 | chain slot k is read exactly while k blocks' worth of bytes is less than the size |
| Layout.BlocksNeededFits | Forking.c:229-232 | a file that passes the free-space check needs no more blocks than are free |
| Bitmap.CountFree | Forking.c:187-200 | counts the free slots; none is free exactly when every slot is in use |
| Bitmap.FirstFree | Forking.c:96-105 | the lowest free slot at or after the scan start, every slot before it in use; -1 exactly when no slot from the start on is free |
| Bitmap.CountFreeMark | Forking.c:99-100 | marking a free slot used lowers the free count by exactly one |
| Bitmap.CountFreeRelease | Forking.c:400-405 | freeing a used block raises the free count by exactly one |
| Bitmap.CountFreeSkipsReserved | Forking.c:559-561 | blocks 0..13, always marked used, never count as free |
| Bitmap.CountAllFree | Forking.c:62-67 | a bitmap with nothing in use has every block free |
| Names.CheckName | Forking.c:517-534 | accepts exactly a present name of at most 32 characters, each a letter, a digit or '.' |
| ByteChain.ChunkLen | Forking.c:341-348 | each block holds between 1 and 8192 bytes of the file; less than 8192 only for the last block |
| ByteChain.ReadChainRoundTrip | Forking.c:334-362 | reading back a chain whose blocks hold the file's chunks yields exactly the file's bytes |
| ByteChain.ReadChainFrom | Forking.c:351-357 | one iteration of the read-back loop appends min(8192, remaining) bytes of the current block and moves to the next slot |
| ByteChain.ReadChainFrame | Forking.c:334-362 | reading back a file depends only on the blocks of its own chain |
| ByteChain.ReadChainLength | Forking.c:334-355 | reading back a chain of ceil(n / 8192) blocks for n bytes yields exactly n bytes |
| AsWritten.CopyIterationsIsBlocksNeeded | Forking.c:259-274 | the copy loop runs once per block of the file |
| AsWritten.SourceOverAllocates | Forking.c:243-274 | as written, the store requests one block more than the file needs: 2 for an 8192-byte file, 1251 for a maximal one |
| AsWritten.SourceReadErrorLeavesShortChain | Forking.c:259-267 | as written, a read error before the last block leaves a valid inode whose chain hits -1 within the blocks its size needs |
| AsWritten.SourceFailedClaimBreaksListing | Forking.c:243-253 | as written, a claim failing for want of a block leaves a valid directory entry pointing at inode -1 |
| AsWritten.SourceRetrieveUsesHostSize | Forking.c:297-326 | as written, the retrieve returns as many bytes as the host file has, not the stored bytes |
| AsWritten.SourceLongNameSharesInode | Forking.c:249-250 | as written, a 32-character name is bound to inode 0, not to the inode claimed for it, so two valid entries can share inode 0 |
| AsWritten.SourceLongNameDeleteRemovesOther | Forking.c:377-411 | as written, deleting that name blanks slot 0, the other file's entry, and leaves the deleted name's entry valid |
| AsWritten.SourceCreateFsFreesReserved | Forking.c:422-432 | as written, createfs leaves blocks 0..13 free, so the block allocator hands out block 4 and free space counts all 4226 blocks |
| Tables.FindEntryFrom | Forking.c:120-127 | the lowest valid slot at or after the start bound to the name; -1 exactly when there is none |
| Tables.FindEntryOfUnique | Forking.c:120-127 | with unique names, a valid entry is found by its own name |
| Tables.FindEntryUpdate | Forking.c:249-250 | overwriting one slot changes no lookup of a name bound neither before nor after at that slot |
| Tables.VisibleIff | Forking.c:463-479 | a name is listed if and only if some valid entry with that name has an inode that is not hidden |
| Tables.VisibleComplete | Forking.c:466-473 | every valid, non-hidden entry is listed, with its inode's size and time stamp |
| Tables.VisibleSound | Forking.c:466-473 | every listed line comes from a valid, non-hidden entry and shows its inode's size |
| FsState.ChainReadable | Forking.c:318-357 | every block of a valid file's chain is a full-sized block of the arena |
| FsState.CopiedStep | Forking.c:259-273 | one copy iteration on a free data block fills it with the next chunk, records it in the next chain slot and marks it used; blocks used before are untouched and one block fewer is free |
| FsState.CopiedRollback | Forking.c:263-267 | releasing every block claimed before a read error restores the bitmap |
| FsState.SetFlag | Forking.c:497-507 | "+h"/"-h" set or clear hidden, "+r"/"-r" set or clear read-only, leaving the other flag alone; any other token is refused |
| FsState.ListedIffNotHidden | Forking.c:463-495 | a file is listed exactly when it is stored and not hidden; a hidden file is still found by name |
| FsState.ChainDistinct | Forking.c:400-405 | the blocks of a stored file's chain are pairwise distinct |
| FsState.ChainsDisjoint | Forking.c:96-105 | two stored files never share a data block |
| FsState.FirstFitStep | Forking.c:96-105 | claiming the lowest free block from 4 on keeps the chain ascending with every block from 4 up to its last one in use |
| Transitions.FreeBlocksScribbled | Forking.c:259-267 | changing bytes of free blocks keeps the invariant and every file's contents |
| Transitions.StoreCommitted | Forking.c:243-274 | a completed store keeps the invariant, stores exactly the given bytes under the name and leaves every other file as it was |
| Transitions.StoredReadsBack | Forking.c:259-362 | a chain filled chunk by chunk reads back as the stored bytes |
| Transitions.CommittedPlaced | Forking.c:243-274 | a completed store binds the first free slot to the first free inode, records the size, chains fresh data blocks and uses exactly ceil(L / 8192) more blocks |
| Transitions.PlacedAttrs | Forking.c:243-257 | a freshly stored file is found by name, neither hidden nor read-only |
| Transitions.StoreThenDeleteRestores | Forking.c:243-411 | storing then deleting a file gives back the bitmap, hence the free space, the store started from, and blanks the slot it claimed |
| Transitions.ReleasedStep | Forking.c:400-405 | freeing the next chain block raises the free count by one |
| Transitions.DeletedConsistent | Forking.c:394-411 | clearing the inode, freeing its chain and blanking its entry keeps the invariant |
| Transitions.DeleteReleases | Forking.c:377-411 | after a delete the name has no contents and no flags, and every other file's contents and flags are unchanged |
| Transitions.FlagsChanged | Forking.c:487-508 | toggling a flag keeps the invariant and every file's contents, and changes the flags of that name only |
| Transitions.FlagsKeepConsistent | Forking.c:497-504 | an inode differing only in its flags keeps the invariant |
| FileSystem.FileSystem.constructor | Forking.c:545-561 | a fresh filesystem has newly allocated tables, every directory slot blank, every inode free and empty and exactly blocks 0..13 in use. It is consistent, holds no file and has (4226 - 14) * 8192 bytes free |
| FileSystem.FileSystem.InitializeDirectory | Forking.c:44-51 | every directory slot is blank |
| FileSystem.FileSystem.InitializeInodes | Forking.c:70-81 | every inode is not valid, empty, unflagged, with every chain slot -1 |
| FileSystem.FileSystem.InitializeBlockList | Forking.c:62-67 | every block from 14 on is free; blocks 0..13 are untouched |
| FileSystem.FileSystem.ReserveTableBlocks | Forking.c:559-561 | blocks 0..13 are marked used; no other block changes |
| FileSystem.FileSystem.EmptyIsConsistent | Forking.c:44-81 | reset tables are consistent, hold no file and leave all data blocks free |
| FileSystem.FileSystem.DisplayFree | Forking.c:187-200 | returns 8192 times the number of free blocks |
| FileSystem.FileSystem.FindFreeBlock | Forking.c:96-105 | returns the lowest free block from 4 on and marks only it used, or -1 changing nothing; with blocks 0..13 marked, never a reserved block |
| FileSystem.FileSystem.FindFreeInode | Forking.c:84-93 | returns the lowest free inode and marks only it valid, or -1 changing nothing |
| FileSystem.FileSystem.FindEmptyDirectoryIndex | Forking.c:108-117 | returns the lowest free directory slot and marks only it valid, or -1 changing nothing |
| FileSystem.FileSystem.FindFileDirectoryIndex | Forking.c:120-127 | returns the lowest valid slot bound to the name, or -1 |
| FileSystem.FileSystem.Store | Forking.c:211-278 | reports an invalid name, a missing source, too little space, a file too large, a duplicate name, a full table or a read error in that order, each changing no table. On success it stores exactly the bytes, unflagged, with free space down by ceil(L / 8192) blocks. Other files are unchanged |
| FileSystem.FileSystem.Place | Forking.c:243-274 | claims the first free slot and inode and copies into first-fit blocks: ascending, with every block from 4 up to the last one in use. A full table or a read error undoes every claim |
| FileSystem.FileSystem.Commit | Forking.c:248-257 | binds the claimed slot to the name and the claimed inode, for every valid name up to 32 characters, records the size and time stamp, and the file reads back as the stored bytes |
| FileSystem.FileSystem.Unclaim | Forking.c:243-248 | frees the claimed slot and inode again, restoring the tables and every file's contents |
| FileSystem.FileSystem.CopyIn | Forking.c:259-274 | copies the file into exactly ceil(L / 8192) fresh first-fit blocks recorded in order; on a read error, releases them and leaves the bitmap and the inodes as they were |
| FileSystem.FileSystem.CopyBlocks | Forking.c:259-273 | the copy loop stops after ceil(L / 8192) blocks, or at the block whose read fails, with that many fresh first-fit blocks filled and chained |
| FileSystem.FileSystem.CopyBlock | Forking.c:259-273 | one iteration: claims the first free block, fills it with the next chunk and records it in the chain, keeping the chain first-fit |
| FileSystem.FileSystem.ReadFailed | Forking.c:263-267 | a failed read releases every block claimed so far and empties the chain |
| FileSystem.FileSystem.Fill | Forking.c:259-273 | writes the chunk to the block and records the block in the next chain slot |
| FileSystem.FileSystem.Abandon | Forking.c:263-267 | frees every claimed block and empties the chain |
| FileSystem.FileSystem.ReleaseBlocks | Forking.c:263-267 | exactly the given blocks become free |
| FileSystem.FileSystem.Retrieve | Forking.c:293-368 | refuses an invalid name, then a name not stored, then an unwritable destination; otherwise it writes exactly the stored bytes, under the new name or the stored one. Nothing changes |
| FileSystem.FileSystem.ReadOut | Forking.c:318-362 | returns min(8192, remaining) bytes of each chain block in order, for the inode's size in total |
| FileSystem.FileSystem.Delete | Forking.c:377-414 | refuses an invalid name, a name not stored and a read-only file, changing nothing. Otherwise exactly the entry found is blanked, its inode is reset to a blank inode, exactly its chain's blocks are freed, the name is gone and free space grows by the file's blocks. Every other file's contents and flags are unchanged |
| FileSystem.FileSystem.ReleaseChain | Forking.c:400-405 | frees every block of the chain up to the -1 sentinel and resets each slot to -1 |
| FileSystem.FileSystem.Attribute | Forking.c:487-509 | refuses an invalid name, a name not stored and an unknown token, changing nothing. Otherwise it sets that name's flags as the token says: the inode table changes only in that file's inode, and only in that flag. No contents and no other name's flags change |
| FileSystem.FileSystem.List | Forking.c:463-479 | returns size, time stamp and name of each valid, non-hidden entry in table order |
| FileSystem.FileSystem.CreateFs | Forking.c:422-432 | with a writable image file, zeroes every block, blanks every directory slot, frees and empties every inode and leaves exactly blocks 0..13 in use, a consistent filesystem with no file; otherwise nothing changes |
| FileSystem.FileSystem.ZeroArena | Forking.c:428 | every block becomes all zero bytes |
| Scenarios.StoreIntoFresh | Forking.c:211-278 | storing a file with a valid name and a readable source of at most 10240000 bytes into a fresh filesystem succeeds unless the host read fails, and the file then holds exactly those bytes |
| Scenarios.StoreThenRetrieve | Forking.c:211-368 | a file retrieved right after a successful store has exactly the stored bytes |
| Scenarios.StoreDeleteDelete | Forking.c:211-414 | after a successful store, a delete succeeds and restores the bitmap and free space, blanking the slot the store claimed, and a second delete reports not found |
| Scenarios.HideThenList | Forking.c:463-509 | after "+h" succeeds the file is not listed, yet retrieving it still yields its bytes |

## Left out

- The `readline`, `parse_command` and command loop of `main` (`Forking.c:138-185`, `563-633`) are not part of this model. The `checkname` guard `main` applies before each command is folded into that command.
- The fork/`execlp`/`waitpid` fallback for unknown commands is left out. It runs host programs and does not touch the filesystem.
- `open` and `fileclose` are left out. They only stream the whole arena to and from a host file. `createfs` is modelled as the zeroing and re-initialisation of the in-memory state, without the host write.
- Host I/O is replaced by values:
  - `stat`, `fopen`, `fread` and `fseek` in the store command become a `HostFile` input: missing, or the bytes plus the block at which reading fails;
  - the output file of the retrieve command becomes the returned `Retrieval`;
  - whether it can be opened becomes a parameter.
- `printf` messages become a `Status` result.
- Time stamps are an opaque integer supplied by the caller, with no `time`, `localtime` or `strftime` formatting.
- Each inode keeps its own time stamp. As written, `localtime` returns a pointer to one static buffer shared by every call (`Forking.c:257`). Every inode's time stamp then points at the same `struct tm`, so `list` shows the latest store's time for every file.
- The tables are separate arrays, not the overlay of `dir`, `freeInodeList`, `freeBlockList` and `inodes` onto blocks 0, 7, 10 and 13. As written, the inode table (128 inodes of about 5 KB) extends far past block 13, over data blocks 14 to about 91. File bytes stored there rewrite inode fields. The model does not capture that aliasing.
- `initializeInodeList` has no counterpart. Its list duplicates the inodes' valid flags, which `InitializeInodes` clears.
- Sizes are unbounded integers. The narrowing of the host's `st_size` to a 32-bit `int` is not modelled. The model always sees the file's true length.
- `attribute` with a missing flag word is not modelled: the flag is always a string.
- FileSystem.FileSystem.Store: on a read error the tables and the contents of every stored file are unchanged, but the bytes of free blocks written before the failure are left unspecified.
- FileSystem.FileSystem.ReleaseChain: clears the chain slots in a local copy of the chain and stores the copy back into the inode once the walk ends. The source clears them in place one by one; the final state is the same.

## Findings

| source | as written | input that shows it | evidently intended | confidence | as-written member | corrected member |
|---|---|---|---|---|---|---|
| Forking.c:245-273 | one block is claimed before the copy loop and another after every iteration, so a store takes ceil(L / 8192) + 1 blocks | an 8192-byte file takes 2 blocks; a 10240000-byte file takes 1251, and the last is recorded one slot past the end of the inode's 1250-slot chain, which is the inode's `hidden` field: that block number, or -1 when no block is left, is nonzero, so the file is stored hidden | exactly ceil(L / 8192) blocks | high (not executed) | AsWritten.SourceOverAllocates | FileSystem.FileSystem.CopyIn |
| Forking.c:263-267 | a read error returns mid-copy, leaving the file registered with its full size but a chain ending early | a 24576-byte file whose first read fails: the inode records 24576 bytes but chain slot 1 holds -1, so a later get reads block -1 | a failed store changes nothing | high (not executed) | AsWritten.SourceReadErrorLeavesShortChain | FileSystem.FileSystem.Place |
| Forking.c:243-253 | the directory slot is marked valid before it is known that a block can be claimed, and is left so when none can | a 0-byte file on a disk with no free data block: the slot is valid with inode -1, and list reads inode -1 | claims succeed together or not at all; an empty file needs no block | medium (not executed) | AsWritten.SourceFailedClaimBreaksListing | FileSystem.FileSystem.Store |
| Forking.c:297-323 | the number of bytes written is the size of the host file of the same name, not the stored size | store a 100-byte file, grow the host file to 200 bytes, then get it: 200 bytes come out | write exactly the stored bytes | high (not executed) | AsWritten.SourceRetrieveUsesHostSize | FileSystem.FileSystem.Retrieve |
| Forking.c:249-250 | the inode number is set before the name is copied with its terminating NUL into the 32-byte field that precedes it, so a 32-character name's NUL clears the number's low byte (on a little-endian machine) | store "a" (inode 0), then a 32-character name: its entry binds inode 0 instead of inode 1, so get of the long name reads the chain of "a" | the entry binds the inode claimed for it | medium (not executed) | AsWritten.SourceLongNameSharesInode | FileSystem.FileSystem.Commit |
| Forking.c:409-411 | delFile blanks `dir[inodeIndex]` rather than the slot it found | after the row above, del of the 32-character name frees the chain of inode 0 and blanks slot 0, the entry of "a", while the deleted name stays listed | blank the slot found | medium (not executed) | AsWritten.SourceLongNameDeleteRemovesOther | FileSystem.FileSystem.Delete |
| Forking.c:428 | createfs zeroes the whole arena, including the free-block list and its marks on blocks 0..13 | after createfs, the next store's first block is block 4, inside the tables | the tables' blocks stay reserved | medium (not executed) | AsWritten.SourceCreateFsFreesReserved | FileSystem.FileSystem.CreateFs |
