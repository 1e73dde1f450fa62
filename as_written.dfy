/**
 * Behaviour of the put, get, del and createfs commands of Forking.c as
 * written, where it departs from what they evidently intend. Each member
 * here exhibits one departure; the rest of the model implements the
 * intended behaviour instead.
 */
module AsWritten {
  import opened Layout
  import opened Bitmap
  import opened ByteChain
  import opened Tables
  import opened FsState
  import opened Names

  /**
   * Iterations of the copy loop in the store and retrieve commands: the body
   * runs while copy_size > 0 and subtracts BlockSize each time.
   */
  function CopyIterations(copySize: int): (n: nat)
    decreases copySize
  {
    if copySize > 0 then 1 + CopyIterations(copySize - BlockSize) else 0
  }

  /** The copy loop runs once per block of the file. */
  lemma {:induction false} CopyIterationsIsBlocksNeeded(size: int)
    requires 0 <= size
    ensures CopyIterations(size) == BlocksNeeded(size)
    decreases size
  {
    if size > 0 {
      if size > BlockSize {
        CopyIterationsIsBlocksNeeded(size - BlockSize);
      } else {
        assert CopyIterations(size - BlockSize) == 0;
      }
    }
  }

  /**
   * Blocks the put command requests as written: one before the copy loop
   * and one more at the end of every iteration.
   */
  function SourceBlockRequests(size: int): nat
  {
    1 + CopyIterations(size)
  }

  /**
   * The as-written store requests one block too many: a file of exactly one
   * block takes two, and a file of MaxFileSize bytes takes ChainSlots + 1,
   * one more than the inode's chain can hold.
   */
  lemma SourceOverAllocates(size: int)
    requires 0 <= size
    ensures SourceBlockRequests(size) == BlocksNeeded(size) + 1
    ensures SourceBlockRequests(BlockSize) == 2
    ensures SourceBlockRequests(MaxFileSize) == ChainSlots + 1
  {
    CopyIterationsIsBlocksNeeded(size);
    CopyIterationsIsBlocksNeeded(BlockSize);
    CopyIterationsIsBlocksNeeded(MaxFileSize);
  }

  /**
   * The free-block list after the createfs command as written: it zeroes the
   * whole arena, and the free-block list lives inside the arena, so every
   * entry is 0 (free), the reserved ones included.
   */
  function SourceCreateFsBitmap(): (s: seq<bool>)
    ensures |s| == NumBlocks
  {
    seq(NumBlocks, _ => false)
  }

  /**
   * After createfs as written, the block allocator hands out block ScanStart
   * (4), which lies inside the reserved table area, and the free-space query
   * counts all NumBlocks blocks, the ReservedBlocks table blocks included.
   */
  lemma SourceCreateFsFreesReserved()
    ensures FirstFree(SourceCreateFsBitmap(), ScanStart) == ScanStart < ReservedBlocks
    ensures BlockSize * CountFree(SourceCreateFsBitmap()) == BlockSize * NumBlocks
  {
    var s := SourceCreateFsBitmap();
    assert !s[ScanStart];
    CountAllFree(s);
  }

  /**
   * The bytes the retrieve command writes as written: the chain is read for
   * `hostSize` bytes, the size the host reports for a file of the same name,
   * not for the size recorded in the inode.
   */
  function SourceRetrieveBytes(arena: seq<seq<bv8>>, chain: seq<int>, hostSize: int): seq<bv8>
    requires ChainInArena(arena, chain)
  {
    ReadChain(arena, chain, hostSize)
  }

  /**
   * When the host file has grown since it was stored, but not past the end of
   * the stored file's last block, retrieve as written returns hostSize bytes,
   * not the stored ones.
   */
  lemma SourceRetrieveUsesHostSize(arena: seq<seq<bv8>>, chain: seq<int>, bytes: seq<bv8>, hostSize: int)
    requires ChainInArena(arena, chain)
    requires |chain| == BlocksNeeded(|bytes|)
    requires |bytes| < hostSize <= BlockSize * |chain|
    ensures |SourceRetrieveBytes(arena, chain, hostSize)| == hostSize
    ensures SourceRetrieveBytes(arena, chain, hostSize) != bytes
  {
    BlocksNeededMonotone(|bytes|, hostSize);
    BlocksNeededFits(hostSize, |chain|);
    ReadChainLength(arena, chain, hostSize);
  }

  /**
   * Inode slot n as the store command leaves it when the host read fails
   * after `claimed` blocks were recorded: it is valid and records the full
   * size, but its chain holds only the claimed blocks. Its directory slot
   * stays valid and bound to the name.
   */
  function SourceInodeAfterReadError(n: Inode, claimed: seq<int>, size: int, now: int): Inode
    requires |n.blocks| == ChainSlots && |claimed| <= ChainSlots
  {
    n.(valid := true, size := size, timeStamp := now, blocks := claimed + n.blocks[|claimed|..])
  }

  /**
   * A read failure before the last block leaves a stored file whose chain
   * ends (NoBlock) within the blocks its size needs, so a later retrieve
   * reads block -1. For instance a file of 3 * BlockSize bytes whose first
   * read fails leaves claimed == [ReservedBlocks].
   */
  lemma SourceReadErrorLeavesShortChain(n: Inode, claimed: seq<int>, size: int, now: int)
    requires n.blocks == EmptyChain()
    requires 0 <= size <= MaxFileSize && 0 < |claimed| < BlocksNeeded(size)
    ensures InodeShaped(SourceInodeAfterReadError(n, claimed, size, now))
    ensures var r := SourceInodeAfterReadError(n, claimed, size, now);
      r.valid && r.size == size && |claimed| < ChainLen(r) && r.blocks[|claimed|] == NoBlock
  {
    MaxFileFillsChain();
    BlocksNeededMonotone(size, MaxFileSize);
    var r := SourceInodeAfterReadError(n, claimed, size, now);
    assert r.blocks[|claimed|] == n.blocks[|claimed|];
  }

  /**
   * The directory as the store command leaves it when no data block is free
   * after it claimed slot d (a zero-byte file on a full disk): d is marked
   * valid, but its name and inode are never set.
   */
  function SourceDirAfterFailedClaim(ds: seq<DirEntry>, d: int): seq<DirEntry>
    requires 0 <= d < |ds|
  {
    ds[d := ds[d].(valid := true)]
  }

  /**
   * A failed claim on a blank slot leaves a valid entry whose inode is -1,
   * so the listing, which follows every valid entry to its inode, reads
   * inode -1.
   */
  lemma SourceFailedClaimBreaksListing(ds: seq<DirEntry>, ins: seq<Inode>, d: int)
    requires |ds| == NumFiles && |ins| == NumFiles
    requires d == FirstFree(EntryFlags(ds), 0) && d != -1 && ds[d] == BlankEntry
    ensures SourceDirAfterFailedClaim(ds, d)[d].valid && SourceDirAfterFailedClaim(ds, d)[d].inode == -1
    ensures !EntriesInRange(SourceDirAfterFailedClaim(ds, d), ins)
  {
    assert SourceDirAfterFailedClaim(ds, d)[d].inode == -1;
  }

  /**
   * The directory entry the put command writes as written for a file stored
   * in inode i. It sets the inode number first and then copies the name with
   * its terminating NUL into the 32-byte filename field. The field is
   * followed directly by the 32-bit little-endian inode number, so for a
   * name of NameLength characters the NUL clears that number's low byte.
   */
  function SourceEntryAfterPut(name: string, i: int): DirEntry
    requires 0 <= i
  {
    DirEntry(true, name, if |name| == NameLength then i - i % 256 else i)
  }

  /**
   * A name of NameLength characters, which the name check accepts, is bound
   * to inode 0 instead of the inode claimed for it. When inode 0 already
   * holds another file, two valid entries then share an inode, so a get of
   * the new name reads the other file's bytes.
   */
  lemma SourceLongNameSharesInode(ds: seq<DirEntry>, d: int, e: int, i: int, name: string)
    requires |ds| == NumFiles && 0 <= d < NumFiles && 0 <= e < NumFiles && d != e
    requires ds[e].valid && ds[e].inode == 0
    requires 0 < i < NumFiles && NameOk(name) && |name| == NameLength
    ensures SourceEntryAfterPut(name, i).inode == 0 != i
    ensures !DistinctInodes(ds[d := SourceEntryAfterPut(name, i)])
  {
    var r := ds[d := SourceEntryAfterPut(name, i)];
    assert r[d].valid && r[e].valid && r[d].inode == r[e].inode;
  }

  /**
   * The directory as the del command leaves it as written after finding the
   * file in slot d: it blanks the slot numbered by the file's inode, not
   * slot d.
   */
  function SourceDirAfterDelete(ds: seq<DirEntry>, d: int): seq<DirEntry>
    requires 0 <= d < |ds| && 0 <= ds[d].inode < |ds|
  {
    ds[ds[d].inode := BlankEntry]
  }

  /**
   * After a name of NameLength characters was stored in slot d next to a
   * file in slot 0 and inode 0, deleting it by name blanks slot 0: the other
   * file's entry is gone while the deleted name stays listed.
   */
  lemma SourceLongNameDeleteRemovesOther(ds: seq<DirEntry>, d: int, i: int, name: string)
    requires |ds| == NumFiles && 0 < d < NumFiles && ds[0].valid && ds[0].inode == 0
    requires 0 < i < NumFiles && NameOk(name) && |name| == NameLength
    ensures var r := SourceDirAfterDelete(ds[d := SourceEntryAfterPut(name, i)], d);
      !r[0].valid && r[d].valid && r[d].filename == name
  {
    assert SourceEntryAfterPut(name, i).inode == 0;
  }
}
