/**
 * The storage engine: a fixed arena of NumBlocks data blocks, a directory
 * table, an inode table and a free-block bitmap, all updated in place.
 *
 * The source overlays the tables on reserved blocks 0..13 of the arena; here
 * they are separate arrays, and blocks 0..13 stay permanently marked used.
 */
module FileSystem {
  import opened Layout
  import opened Bitmap
  import opened Names
  import opened Tables
  import opened ByteChain
  import opened FsState
  import opened Transitions

  /** How a command ends. */
  datatype Status =
    | Ok
    | NameInvalid
    | SourceNotFound
    | InsufficientSpace
    | FileTooLarge
    | DuplicateName
    | TableFull
    | ReadError
    | NotFound
    | ReadOnlyViolation
    | InvalidFlag
    | DestinationUnwritable

  /**
   * The host file given to the store command: missing (stat fails), or its
   * bytes together with the block at which reading fails, if it does.
   */
  datatype HostFile = Missing | Readable(bytes: seq<bv8>, readErrorAt: Option<nat>)

  /** The host read fails before all `n` blocks are copied. */
  predicate ReadFails(src: HostFile, n: int)
    requires src.Readable?
  {
    src.readErrorAt.Some? && src.readErrorAt.value < n
  }

  /** What the retrieve command writes to the host, or why it does not. */
  datatype Retrieval = Wrote(path: string, bytes: seq<bv8>) | Refused(status: Status)

  class FileSystem {
    /** Directory table. */
    const dir: array<DirEntry>
    /** Inode table; an inode's valid flag is the only record of whether the slot is free. */
    const inodes: array<Inode>
    /** Free-block bitmap: true where the block is in use. */
    const used: array<bool>
    /** Contents of every block of the arena. */
    const blocks: array<seq<bv8>>
    /** For each block, the chain slot it is recorded in. */
    ghost var owner: seq<Owner>

    ghost predicate Valid()
      reads this, dir, inodes, used, blocks
    {
      dir.Length == NumFiles && inodes.Length == NumFiles && used.Length == NumBlocks && blocks.Length == NumBlocks &&
      Consistent(dir[..], inodes[..], used[..], blocks[..], owner)
    }

    /** The contents of the file called `name`, if it is stored. */
    function Content(name: string): Option<seq<bv8>>
      reads this, dir, inodes, used, blocks
      requires Valid()
    {
      FileOf(dir[..], inodes[..], blocks[..], name)
    }

    /** The attribute flags of the file called `name`, if it is stored. */
    function Flags(name: string): Option<Attrs>
      reads this, dir, inodes, used, blocks
      requires Valid()
    {
      AttrsOf(dir[..], inodes[..], name)
    }

    /** Bytes of free space: BlockSize per block not in use. */
    function FreeSpace(): int
      reads used
    {
      BlockSize * CountFree(used[..])
    }

    /**
     * A fresh filesystem: every table reset, blocks 0..13 marked used.
     */
    constructor ()
      ensures fresh(dir) && fresh(inodes) && fresh(used) && fresh(blocks)
      ensures Valid()
      ensures forall e :: 0 <= e < NumFiles ==> dir[e] == BlankEntry
      ensures forall i :: 0 <= i < NumFiles ==> inodes[i] == BlankInode(inodes[i].timeStamp)
      ensures forall b :: 0 <= b < NumBlocks ==> used[b] == (b < ReservedBlocks)
      ensures forall name :: Content(name) == None
      ensures FreeSpace() == (NumBlocks - ReservedBlocks) * BlockSize
    {
      dir := new DirEntry[NumFiles];
      inodes := new Inode[NumFiles];
      used := new bool[NumBlocks];
      blocks := new seq<bv8>[NumBlocks](_ => ZeroBlock());
      owner := seq(NumBlocks, _ => Unowned);
      new;
      InitializeDirectory();
      InitializeInodes();
      InitializeBlockList();
      ReserveTableBlocks();
      EmptyIsConsistent();
    }

    /** Clears every directory slot. */
    method InitializeDirectory()
      modifies dir
      ensures forall e :: 0 <= e < dir.Length ==> dir[e] == BlankEntry
    {
      var e := 0;
      while e < dir.Length
        invariant 0 <= e <= dir.Length
        invariant forall f :: 0 <= f < e ==> dir[f] == BlankEntry
      {
        dir[e] := BlankEntry;
        e := e + 1;
      }
    }

    /** Clears every inode slot: not valid, empty, no flags, every chain slot NoBlock. */
    method InitializeInodes()
      modifies inodes
      ensures forall i :: 0 <= i < inodes.Length ==> inodes[i] == BlankInode(old(inodes[i]).timeStamp)
    {
      var i := 0;
      while i < inodes.Length
        invariant 0 <= i <= inodes.Length
        invariant forall j :: 0 <= j < i ==> inodes[j] == BlankInode(old(inodes[j]).timeStamp)
        invariant forall j :: i <= j < inodes.Length ==> inodes[j] == old(inodes[j])
      {
        inodes[i] := inodes[i].(valid := false, size := 0, hidden := false, readOnly := false, blocks := EmptyChain());
        i := i + 1;
      }
    }

    /** Marks every block from ReservedBlocks on free, leaving the reserved flags alone. */
    method InitializeBlockList()
      modifies used
      ensures forall b :: 0 <= b < used.Length ==> used[b] == (b < ReservedBlocks && old(used[b]))
    {
      var b := ReservedBlocks;
      while b < used.Length
        invariant forall x :: 0 <= x < used.Length ==>
          used[x] == (if ReservedBlocks <= x < b then false else old(used[x]))
      {
        used[b] := false;
        b := b + 1;
      }
    }

    /** Marks blocks 0..13, which hold the tables, as used. */
    method ReserveTableBlocks()
      requires used.Length >= ReservedBlocks
      modifies used
      ensures forall b :: 0 <= b < used.Length ==> used[b] == (b < ReservedBlocks || old(used[b]))
    {
      var b := 0;
      while b < ReservedBlocks
        invariant 0 <= b <= ReservedBlocks
        invariant forall x :: 0 <= x < used.Length ==> used[x] == (x < b || old(used[x]))
      {
        used[b] := true;
        b := b + 1;
      }
    }

    /** Freshly reset tables are consistent and empty. */
    lemma EmptyIsConsistent()
      requires dir.Length == NumFiles && inodes.Length == NumFiles
      requires used.Length == NumBlocks && blocks.Length == NumBlocks && |owner| == NumBlocks
      requires forall e :: 0 <= e < NumFiles ==> dir[e] == BlankEntry
      requires forall i :: 0 <= i < NumFiles ==> inodes[i] == BlankInode(inodes[i].timeStamp)
      requires forall b :: 0 <= b < NumBlocks ==> used[b] == (b < ReservedBlocks)
      requires forall b :: 0 <= b < NumBlocks ==> |blocks[b]| == BlockSize
      ensures Valid()
      ensures forall name :: Content(name) == None
      ensures FreeSpace() == (NumBlocks - ReservedBlocks) * BlockSize
    {
      var us := used[..];
      CountFreeSkipsReserved(us, ReservedBlocks);
      CountAllFree(us[ReservedBlocks..]);
      forall name ensures FindEntry(dir[..], name) == -1 {
        assert forall e :: 0 <= e < NumFiles ==> !Binds(dir[..], e, name);
      }
    }

    /** Free-space query: BlockSize times the number of blocks not in use. */
    method DisplayFree() returns (free: int)
      ensures free == BlockSize * CountFree(used[..])
    {
      free := 0;
      var b := 0;
      while b < used.Length
        invariant 0 <= b <= used.Length
        invariant free == BlockSize * CountFree(used[..b])
      {
        assert used[..b + 1][..b] == used[..b];
        if !used[b] {
          free := free + BlockSize;
        }
        b := b + 1;
      }
      assert used[..b] == used[..];
    }

    /** First-fit block allocator: claims the lowest free block from ScanStart on. */
    method FindFreeBlock() returns (r: int)
      modifies used
      ensures r == FirstFree(old(used[..]), ScanStart)
      ensures used[..] == if r == -1 then old(used[..]) else old(used[..])[r := true]
      ensures (forall b :: 0 <= b < ReservedBlocks && b < used.Length ==> old(used[b])) ==>
                r == -1 || r >= ReservedBlocks
    {
      var b := ScanStart;
      while b < used.Length
        invariant ScanStart <= b
        invariant FirstFree(used[..], ScanStart) == FirstFree(used[..], b)
        invariant used[..] == old(used[..])
      {
        if !used[b] {
          used[b] := true;
          return b;
        }
        b := b + 1;
      }
      return -1;
    }

    /** First-fit inode allocator: claims the lowest inode slot that is not valid. */
    method FindFreeInode() returns (r: int)
      modifies inodes
      ensures r == FirstFree(InodeFlags(old(inodes[..])), 0)
      ensures inodes[..] == if r == -1 then old(inodes[..]) else old(inodes[..])[r := old(inodes[r]).(valid := true)]
    {
      var i := 0;
      while i < inodes.Length
        invariant 0 <= i
        invariant FirstFree(InodeFlags(inodes[..]), 0) == FirstFree(InodeFlags(inodes[..]), i)
        invariant inodes[..] == old(inodes[..])
      {
        if !inodes[i].valid {
          inodes[i] := inodes[i].(valid := true);
          return i;
        }
        i := i + 1;
      }
      return -1;
    }

    /** First-fit directory allocator: claims the lowest directory slot that is not valid. */
    method FindEmptyDirectoryIndex() returns (r: int)
      modifies dir
      ensures r == FirstFree(EntryFlags(old(dir[..])), 0)
      ensures dir[..] == if r == -1 then old(dir[..]) else old(dir[..])[r := old(dir[r]).(valid := true)]
    {
      var e := 0;
      while e < dir.Length
        invariant 0 <= e
        invariant FirstFree(EntryFlags(dir[..]), 0) == FirstFree(EntryFlags(dir[..]), e)
        invariant dir[..] == old(dir[..])
      {
        if !dir[e].valid {
          dir[e] := dir[e].(valid := true);
          return e;
        }
        e := e + 1;
      }
      return -1;
    }

    /** Lookup by name: the lowest valid directory slot bound to `name`, or -1. */
    method FindFileDirectoryIndex(name: string) returns (r: int)
      ensures r == FindEntry(dir[..], name)
    {
      var e := 0;
      while e < dir.Length
        invariant 0 <= e <= dir.Length
        invariant FindEntry(dir[..], name) == FindEntryFrom(dir[..], name, e)
      {
        if dir[e].valid && dir[e].filename == name {
          return e;
        }
        e := e + 1;
      }
      return -1;
    }

    /**
     * Store: copies the host file `src` into the arena under `name`.
     * Fails, changing nothing, when the name is not valid, the source is
     * missing, the file is larger than the free space or than MaxFileSize, or
     * the name is taken; the remaining cases are those of Place.
     */
    method Store(name: string, src: HostFile, now: int) returns (status: Status)
      requires Valid()
      modifies dir, inodes, used, blocks, this`owner
      ensures Valid()
      ensures !NameOk(name) ==> status == NameInvalid
      ensures NameOk(name) && src.Missing? ==> status == SourceNotFound
      ensures NameOk(name) && src.Readable? ==>
        status == (if old(FreeSpace()) < |src.bytes| then InsufficientSpace
                   else if |src.bytes| > MaxFileSize then FileTooLarge
                   else if old(FindEntry(dir[..], name)) != -1 then DuplicateName
                   else if FirstFree(EntryFlags(old(dir[..])), 0) == -1 then TableFull
                   else if FirstFree(InodeFlags(old(inodes[..])), 0) == -1 then TableFull
                   else if ReadFails(src, BlocksNeeded(|src.bytes|)) then ReadError
                   else Ok)
      ensures status != Ok ==>
        dir[..] == old(dir[..]) && inodes[..] == old(inodes[..]) && used[..] == old(used[..]) &&
        (forall b :: 0 <= b < NumBlocks && old(used[b]) ==> blocks[b] == old(blocks[b]))
      ensures status != Ok && status != ReadError ==> blocks[..] == old(blocks[..])
      ensures status == Ok ==>
        Placed(old(dir[..]), old(inodes[..]), old(used[..]), dir[..], inodes[..], used[..], name, |src.bytes|, now) &&
        FreeSpace() == old(FreeSpace()) - BlockSize * BlocksNeeded(|src.bytes|) &&
        Content(name) == Some(src.bytes) && Flags(name) == Some(Attrs(false, false))
      ensures forall n :: n != name ==> Content(n) == old(Content(n))
    {
      var nameOk := CheckName(Some(name));
      if !nameOk {
        return NameInvalid;
      }
      if src.Missing? {
        return SourceNotFound;
      }
      var size := |src.bytes|;
      var free := DisplayFree();
      if free < size {
        return InsufficientSpace;
      }
      if size > MaxFileSize {
        return FileTooLarge;
      }
      var existing := FindFileDirectoryIndex(name);
      if existing != -1 {
        return DuplicateName;
      }
      status := Place(name, src, now);
      if status == Ok {
        PlacedAttrs(old(dir[..]), old(inodes[..]), old(used[..]), dir[..], inodes[..], used[..], name, size, now);
      }
    }

    /**
     * The allocating half of the store command, for a valid new name and a
     * source that fits: claims the first free directory slot and the first
     * free inode (TableFull, changing nothing, when either table is full),
     * then copies the bytes into BlocksNeeded(size) first-fit blocks. When
     * the host read fails, every claim is undone and only the bytes of free
     * blocks may have changed.
     */
    method Place(name: string, src: HostFile, now: int) returns (status: Status)
      requires Valid()
      requires NameOk(name) && FindEntry(dir[..], name) == -1
      requires src.Readable? && |src.bytes| <= MaxFileSize && |src.bytes| <= FreeSpace()
      modifies dir, inodes, used, blocks, this`owner
      ensures Valid()
      ensures status == (if FirstFree(EntryFlags(old(dir[..])), 0) == -1 then TableFull
                         else if FirstFree(InodeFlags(old(inodes[..])), 0) == -1 then TableFull
                         else if ReadFails(src, BlocksNeeded(|src.bytes|)) then ReadError
                         else Ok)
      ensures status != Ok ==>
        dir[..] == old(dir[..]) && inodes[..] == old(inodes[..]) && used[..] == old(used[..]) &&
        (forall b :: 0 <= b < NumBlocks && old(used[b]) ==> blocks[b] == old(blocks[b]))
      ensures status == TableFull ==> blocks[..] == old(blocks[..])
      ensures status == Ok ==>
        Placed(old(dir[..]), old(inodes[..]), old(used[..]), dir[..], inodes[..], used[..], name, |src.bytes|, now) &&
        FreeSpace() == old(FreeSpace()) - BlockSize * BlocksNeeded(|src.bytes|) &&
        Content(name) == Some(src.bytes)
      ensures forall n :: n != name ==> Content(n) == old(Content(n))
    {
      ghost var D0, I0, U0, A0, O0 := dir[..], inodes[..], used[..], blocks[..], owner;
      var bytes := src.bytes;
      var d := FindEmptyDirectoryIndex();
      if d == -1 {
        return TableFull;
      }
      var i := FindFreeInode();
      if i == -1 {
        dir[d] := dir[d].(valid := false);
        assert dir[..] == D0;
        return TableFull;
      }
      assert I0[i] == BlankInode(I0[i].timeStamp);
      BlocksNeededFits(|bytes|, CountFree(U0));
      var ok := CopyIn(i, bytes, src.readErrorAt);
      if !ok {
        Unclaim(d, i, D0, I0, U0, A0, O0);
        return ReadError;
      }
      Commit(d, i, name, bytes, now, D0, I0, U0, A0, O0);
      return Ok;
    }

    /**
     * Completes a store whose copy succeeded: directory slot d now binds
     * `name` to inode i, which records the size and the time stamp.
     */
    method Commit(d: int, i: int, name: string, bytes: seq<bv8>, now: int, ghost D0: seq<DirEntry>, ghost I0: seq<Inode>,
                  ghost U0: seq<bool>, ghost A0: seq<seq<bv8>>, ghost O0: seq<Owner>)
      requires Consistent(D0, I0, U0, A0, O0)
      requires dir.Length == NumFiles && inodes.Length == NumFiles && used.Length == NumBlocks && blocks.Length == NumBlocks
      requires d == FirstFree(EntryFlags(D0), 0) && i == FirstFree(InodeFlags(I0), 0) && d != -1 && i != -1
      requires NameOk(name) && FindEntry(D0, name) == -1 && |bytes| <= MaxFileSize
      requires dir[..] == D0[d := D0[d].(valid := true)]
      requires forall j :: 0 <= j < NumFiles && j != i ==> inodes[j] == I0[j]
      requires inodes[i] == I0[i].(valid := true, blocks := inodes[i].blocks)
      requires Copied(U0, A0, O0, used[..], blocks[..], owner, inodes[i].blocks, i, bytes, BlocksNeeded(|bytes|))
      requires FirstFit(inodes[i].blocks, BlocksNeeded(|bytes|), used[..])
      modifies dir, inodes
      ensures Valid()
      ensures Placed(D0, I0, U0, dir[..], inodes[..], used[..], name, |bytes|, now)
      ensures CountFree(used[..]) == CountFree(U0) - BlocksNeeded(|bytes|)
      ensures Content(name) == Some(bytes)
      ensures forall n :: n != name ==> Content(n) == FileOf(D0, I0, A0, n)
    {
      assert I0[i] == BlankInode(I0[i].timeStamp);
      dir[d] := DirEntry(true, name, i);
      inodes[i] := inodes[i].(size := |bytes|, timeStamp := now);
      StoreCommitted(D0, I0, U0, A0, O0, dir[..], inodes[..], used[..], blocks[..], owner, d, i, name, bytes);
      CommittedPlaced(D0, I0, U0, A0, O0, dir[..], inodes[..], used[..], blocks[..], owner, d, i, name, bytes, now);
    }

    /**
     * Undoes the slot claims of a store whose copy failed: the directory slot
     * and the inode are marked free again, so the tables are back to D0 and
     * I0; only the bytes of free blocks differ from A0.
     */
    method Unclaim(d: int, i: int, ghost D0: seq<DirEntry>, ghost I0: seq<Inode>, ghost U0: seq<bool>,
                   ghost A0: seq<seq<bv8>>, ghost O0: seq<Owner>)
      requires Consistent(D0, I0, U0, A0, O0)
      requires dir.Length == NumFiles && inodes.Length == NumFiles && used.Length == NumBlocks && blocks.Length == NumBlocks
      requires 0 <= d < NumFiles && 0 <= i < NumFiles && !D0[d].valid && !I0[i].valid
      requires dir[..] == D0[d := D0[d].(valid := true)] && inodes[..] == I0[i := I0[i].(valid := true)]
      requires used[..] == U0
      requires forall x :: 0 <= x < NumBlocks ==> |blocks[x]| == BlockSize
      requires forall x :: 0 <= x < NumBlocks && U0[x] ==> blocks[x] == A0[x]
      modifies dir, inodes, this`owner
      ensures Valid()
      ensures dir[..] == D0 && inodes[..] == I0
      ensures forall n :: Content(n) == FileOf(D0, I0, A0, n)
    {
      dir[d] := dir[d].(valid := false);
      inodes[i] := inodes[i].(valid := false);
      owner := O0;
      assert dir[..] == D0 && inodes[..] == I0;
      FreeBlocksScribbled(D0, I0, U0, A0, blocks[..], O0);
    }

    /**
     * The copy loop of the store command: claims one first-fit block per
     * BlockSize bytes of `bytes`, fills it and records it in inode i's chain.
     * When the host read fails at block readErrorAt, every block claimed so
     * far is released and the chain is left empty again.
     */
    method CopyIn(i: int, bytes: seq<bv8>, readErrorAt: Option<nat>) returns (ok: bool)
      requires inodes.Length == NumFiles && used.Length == NumBlocks && blocks.Length == NumBlocks
      requires 0 <= i < NumFiles && |bytes| <= MaxFileSize
      requires inodes[i].blocks == EmptyChain()
      requires forall b :: 0 <= b < ReservedBlocks ==> used[b]
      requires BlocksNeeded(|bytes|) <= CountFree(used[..])
      requires forall b :: 0 <= b < NumBlocks ==> |blocks[b]| == BlockSize
      requires |owner| == NumBlocks
      modifies inodes, used, blocks, this`owner
      ensures ok <==> !(readErrorAt.Some? && readErrorAt.value < BlocksNeeded(|bytes|))
      ensures forall j :: 0 <= j < NumFiles && j != i ==> inodes[j] == old(inodes[j])
      ensures !ok ==>
        inodes[..] == old(inodes[..]) && used[..] == old(used[..]) && |owner| == NumBlocks &&
        (forall x :: 0 <= x < NumBlocks ==> |blocks[x]| == BlockSize) &&
        (forall x :: 0 <= x < NumBlocks && old(used[x]) ==> blocks[x] == old(blocks[x]))
      ensures ok ==>
        inodes[i] == old(inodes[i]).(blocks := inodes[i].blocks) &&
        Copied(old(used[..]), old(blocks[..]), old(owner), used[..], blocks[..], owner,
               inodes[i].blocks, i, bytes, BlocksNeeded(|bytes|)) &&
        FirstFit(inodes[i].blocks, BlocksNeeded(|bytes|), used[..])
    {
      ghost var U0, A0, O0 := used[..], blocks[..], owner;
      var k := CopyBlocks(i, bytes, readErrorAt);
      if k < BlocksNeeded(|bytes|) {
        ReadFailed(i, bytes, k, U0, A0, O0);
        return false;
      }
      return true;
    }

    /**
     * The copy loop itself: copies block after block until the file is
     * copied or the host read fails, and returns the number of blocks copied.
     */
    method CopyBlocks(i: int, bytes: seq<bv8>, readErrorAt: Option<nat>) returns (k: int)
      requires inodes.Length == NumFiles && used.Length == NumBlocks && blocks.Length == NumBlocks
      requires 0 <= i < NumFiles && |bytes| <= MaxFileSize
      requires inodes[i].blocks == EmptyChain()
      requires forall b :: 0 <= b < ReservedBlocks ==> used[b]
      requires BlocksNeeded(|bytes|) <= CountFree(used[..])
      requires forall b :: 0 <= b < NumBlocks ==> |blocks[b]| == BlockSize
      requires |owner| == NumBlocks
      modifies inodes, used, blocks, this`owner
      ensures k == if readErrorAt.Some? && readErrorAt.value < BlocksNeeded(|bytes|) then readErrorAt.value
                   else BlocksNeeded(|bytes|)
      ensures forall j :: 0 <= j < NumFiles && j != i ==> inodes[j] == old(inodes[j])
      ensures inodes[i] == old(inodes[i]).(blocks := inodes[i].blocks)
      ensures Copied(old(used[..]), old(blocks[..]), old(owner), used[..], blocks[..], owner, inodes[i].blocks, i, bytes, k)
      ensures FirstFit(inodes[i].blocks, k, used[..])
    {
      ghost var U0, A0, O0 := used[..], blocks[..], owner;
      var size := |bytes|;
      var copySize := size;
      k := 0;
      CopiedStart(U0, A0, O0, i, bytes);
      while copySize > 0 && !(readErrorAt.Some? && readErrorAt.value == k)
        invariant 0 <= k <= BlocksNeeded(size)
        invariant copySize == size - k * BlockSize
        invariant readErrorAt.Some? ==> readErrorAt.value >= k
        invariant forall j :: 0 <= j < NumFiles && j != i ==> inodes[j] == old(inodes[j])
        invariant inodes[i] == old(inodes[i]).(blocks := inodes[i].blocks)
        invariant Copied(U0, A0, O0, used[..], blocks[..], owner, inodes[i].blocks, i, bytes, k)
        invariant FirstFit(inodes[i].blocks, k, used[..])
      {
        BlocksNeededIndex(size, k);
        CopyBlock(i, bytes, k, U0, A0, O0);
        copySize := copySize - BlockSize;
        k := k + 1;
      }
      BlocksNeededIndex(size, k);
    }

    /** One iteration of the copy loop: claims the first free data block and fills it with chunk k. */
    method CopyBlock(i: int, bytes: seq<bv8>, k: int, ghost U0: seq<bool>, ghost A0: seq<seq<bv8>>, ghost O0: seq<Owner>)
      requires inodes.Length == NumFiles && used.Length == NumBlocks && blocks.Length == NumBlocks
      requires 0 <= i < NumFiles && k < BlocksNeeded(|bytes|) && |bytes| <= MaxFileSize
      requires Copied(U0, A0, O0, used[..], blocks[..], owner, inodes[i].blocks, i, bytes, k)
      requires FirstFit(inodes[i].blocks, k, used[..])
      requires forall x :: 0 <= x < ReservedBlocks ==> U0[x]
      requires BlocksNeeded(|bytes|) <= CountFree(U0)
      modifies inodes, used, blocks, this`owner
      ensures Copied(U0, A0, O0, used[..], blocks[..], owner, inodes[i].blocks, i, bytes, k + 1)
      ensures FirstFit(inodes[i].blocks, k + 1, used[..])
      ensures forall j :: 0 <= j < NumFiles && j != i ==> inodes[j] == old(inodes[j])
      ensures inodes[i] == old(inodes[i]).(blocks := inodes[i].blocks)
    {
      MaxFileFillsChain();
      BlocksNeededMonotone(|bytes|, MaxFileSize);
      ghost var us, arena, chain := used[..], blocks[..], inodes[i].blocks;
      assert forall x :: 0 <= x < ReservedBlocks ==> us[x] by {
        forall x | 0 <= x < ReservedBlocks ensures us[x] { assert U0[x]; }
      }
      FirstFreeFinds(us, ScanStart);
      var b := FindFreeBlock();
      CopiedStep(U0, A0, O0, us, arena, owner, chain, i, bytes, k, b);
      FirstFitStep(chain, k, us, b);
      Fill(i, k, b, bytes);
    }

    /**
     * The copy loop's read fails at chunk k: the block just claimed and
     * every block copied so far are released, and inode i's chain is emptied.
     */
    method ReadFailed(i: int, bytes: seq<bv8>, k: int, ghost U0: seq<bool>, ghost A0: seq<seq<bv8>>, ghost O0: seq<Owner>)
      requires inodes.Length == NumFiles && used.Length == NumBlocks && blocks.Length == NumBlocks
      requires 0 <= i < NumFiles && k < BlocksNeeded(|bytes|)
      requires Copied(U0, A0, O0, used[..], blocks[..], owner, inodes[i].blocks, i, bytes, k)
      requires forall x :: 0 <= x < ReservedBlocks ==> U0[x]
      requires BlocksNeeded(|bytes|) <= CountFree(U0)
      modifies inodes, used
      ensures used[..] == U0
      ensures inodes[..] == old(inodes[..])[i := old(inodes[i]).(blocks := EmptyChain())]
    {
      ghost var us, arena, chain := used[..], blocks[..], inodes[i].blocks;
      assert forall x :: 0 <= x < ReservedBlocks ==> us[x] by {
        forall x | 0 <= x < ReservedBlocks ensures us[x] { assert U0[x]; }
      }
      FirstFreeFinds(us, ScanStart);
      var b := FindFreeBlock();
      Abandon(i, k, b);
      CopiedRollback(U0, A0, O0, us, arena, owner, chain, i, bytes, k, b, used[..]);
    }

    /** Writes chunk k of `bytes` into block b and records b as slot k of inode i's chain. */
    method Fill(i: int, k: int, b: int, bytes: seq<bv8>)
      requires 0 <= i < inodes.Length && 0 <= b < blocks.Length && 0 <= b < |owner|
      requires 0 <= k < |inodes[i].blocks| && k < BlocksNeeded(|bytes|)
      requires |blocks[b]| == BlockSize
      modifies blocks, inodes, this`owner
      ensures blocks[..] == old(blocks[..])[b := Chunk(bytes, k) + old(blocks[b])[ChunkLen(|bytes|, k)..]]
      ensures forall j :: 0 <= j < inodes.Length && j != i ==> inodes[j] == old(inodes[j])
      ensures inodes[i] == old(inodes[i]).(blocks := old(inodes[i]).blocks[k := b])
      ensures owner == old(owner)[b := Slot(i, k)]
    {
      blocks[b] := Chunk(bytes, k) + blocks[b][ChunkLen(|bytes|, k)..];
      inodes[i] := inodes[i].(blocks := inodes[i].blocks[k := b]);
      owner := owner[b := Slot(i, k)];
    }

    /**
     * Undoes a copy interrupted after k blocks and a just-claimed block b:
     * every claimed block is freed and inode i's chain is emptied again.
     */
    method Abandon(i: int, k: int, b: int)
      requires 0 <= i < inodes.Length && 0 <= b < used.Length
      requires 0 <= k <= |inodes[i].blocks|
      requires forall p :: 0 <= p < k ==> 0 <= inodes[i].blocks[p] < used.Length
      modifies used, inodes
      ensures forall x :: 0 <= x < used.Length ==> used[x] == (old(used[x]) && x !in old(inodes[i].blocks[..k]) + [b])
      ensures inodes[..] == old(inodes[..])[i := old(inodes[i]).(blocks := EmptyChain())]
    {
      ReleaseBlocks(inodes[i].blocks[..k] + [b]);
      inodes[i] := inodes[i].(blocks := EmptyChain());
    }

    /** Marks every block of `claimed` free again. */
    method ReleaseBlocks(claimed: seq<int>)
      requires forall p :: 0 <= p < |claimed| ==> 0 <= claimed[p] < used.Length
      modifies used
      ensures forall x :: 0 <= x < used.Length ==> used[x] == (old(used[x]) && x !in claimed)
    {
      var p := 0;
      while p < |claimed|
        invariant 0 <= p <= |claimed|
        invariant forall x :: 0 <= x < used.Length ==> used[x] == (old(used[x]) && x !in claimed[..p])
      {
        used[claimed[p]] := false;
        p := p + 1;
      }
      assert claimed[..p] == claimed;
    }

    /**
     * Retrieve: writes the stored file `name` to the host under `newName`,
     * or under `name` when no new name is given. Refuses an invalid name,
     * a name that is not stored, and a host destination that cannot be
     * opened for writing, in that order. The filesystem is not changed.
     */
    method Retrieve(name: string, newName: Option<string>, destWritable: bool) returns (r: Retrieval)
      requires Valid()
      ensures !NameOk(name) || (newName.Some? && !NameOk(newName.value)) ==> r == Refused(NameInvalid)
      ensures NameOk(name) && (newName.None? || NameOk(newName.value)) ==>
        r == (if Content(name).None? then Refused(NotFound)
              else if !destWritable then Refused(DestinationUnwritable)
              else Wrote(if newName.Some? then newName.value else name, Content(name).value))
    {
      var nameOk := CheckName(Some(name));
      if !nameOk {
        return Refused(NameInvalid);
      }
      if newName.Some? {
        var newOk := CheckName(newName);
        if !newOk {
          return Refused(NameInvalid);
        }
      }
      var d := FindFileDirectoryIndex(name);
      if d == -1 {
        return Refused(NotFound);
      }
      var target := if newName.Some? then newName.value else name;
      if !destWritable {
        return Refused(DestinationUnwritable);
      }
      ChainReadable(dir[..], inodes[..], blocks[..], dir[d].inode);
      var out := ReadOut(dir[d].inode);
      return Wrote(target, out);
    }

    /**
     * The copy loop of the retrieve command: the first min(BlockSize,
     * remaining) bytes of each block of inode i's chain, until the inode's
     * size is reached.
     */
    method ReadOut(i: int) returns (out: seq<bv8>)
      requires 0 <= i < inodes.Length && InodeShaped(inodes[i])
      requires ChainInArena(blocks[..], Chain(inodes[i]))
      ensures out == ReadChain(blocks[..], Chain(inodes[i]), inodes[i].size)
    {
      ghost var arena := blocks[..];
      ghost var chain := Chain(inodes[i]);
      var size := inodes[i].size;
      var copySize := size;
      var k := 0;
      out := [];
      assert chain[0..] == chain;
      while copySize > 0
        invariant 0 <= k <= |chain|
        invariant copySize == size - k * BlockSize
        invariant ChainInArena(arena, chain[k..])
        invariant out + ReadChain(arena, chain[k..], copySize) == ReadChain(arena, chain, size)
      {
        BlocksNeededIndex(size, k);
        var numBytes := if copySize < BlockSize then copySize else BlockSize;
        var b := inodes[i].blocks[k];
        ReadChainFrom(arena, chain, k, copySize);
        out := out + blocks[b][..numBytes];
        copySize := copySize - BlockSize;
        k := k + 1;
      }
      BlocksNeededIndex(size, k);
    }

    /**
     * Delete: removes the file `name`. Refuses an invalid name, a name that
     * is not stored, and a read-only file, changing nothing. Otherwise the
     * inode is cleared, every block of its chain is freed, and the directory
     * slot the lookup found is cleared.
     */
    method Delete(name: string) returns (status: Status)
      requires Valid()
      modifies dir, inodes, used
      ensures Valid()
      ensures status == (if !NameOk(name) then NameInvalid
                         else if old(Flags(name)).None? then NotFound
                         else if old(Flags(name)).value.readOnly then ReadOnlyViolation
                         else Ok)
      ensures status != Ok ==> dir[..] == old(dir[..]) && inodes[..] == old(inodes[..]) && used[..] == old(used[..])
      ensures status == Ok ==>
        Content(name) == None && Flags(name) == None &&
        FreeSpace() == old(FreeSpace()) + BlockSize * BlocksNeeded(|old(Content(name)).value|)
      ensures status == Ok ==>
        var d := FindEntry(old(dir[..]), name);
        0 <= d < NumFiles &&
        Deleted(old(dir[..]), old(inodes[..]), old(used[..]), dir[..], inodes[..], used[..], d, old(dir[..])[d].inode)
      ensures forall n :: n != name ==> Content(n) == old(Content(n)) && Flags(n) == old(Flags(n))
    {
      ghost var D0, I0, U0 := dir[..], inodes[..], used[..];
      var nameOk := CheckName(Some(name));
      if !nameOk {
        return NameInvalid;
      }
      var d := FindFileDirectoryIndex(name);
      if d == -1 {
        return NotFound;
      }
      var i := dir[d].inode;
      if inodes[i].readOnly {
        return ReadOnlyViolation;
      }
      ghost var c := Chain(I0[i]);
      ChainDistinct(D0, I0, U0, blocks[..], owner, i);
      ChainReadable(D0, I0, blocks[..], i);
      ReadChainLength(blocks[..], c, I0[i].size);
      inodes[i] := inodes[i].(valid := false, size := 0, hidden := false, readOnly := false);
      ReleaseChain(i, c, U0);
      dir[d] := BlankEntry;
      assert inodes[..] == I0[i := BlankInode(I0[i].timeStamp)];
      DeleteReleases(D0, I0, U0, blocks[..], owner, dir[..], inodes[..], used[..], name);
      return Ok;
    }

    /**
     * The release loop of the delete command: walks inode i's chain slots,
     * stopping at the first NoBlock, freeing each block and resetting the slot
     * to NoBlock. The slots are reset in a local copy of the chain that is
     * stored back once the walk ends.
     */
    method ReleaseChain(i: int, ghost c: seq<int>, ghost U0: seq<bool>)
      requires 0 <= i < inodes.Length && used.Length == NumBlocks && |U0| == NumBlocks
      requires used[..] == U0
      requires |inodes[i].blocks| == ChainSlots && |c| <= ChainSlots && c == inodes[i].blocks[..|c|]
      requires forall p :: |c| <= p < ChainSlots ==> inodes[i].blocks[p] == NoBlock
      requires forall p :: 0 <= p < |c| ==> ReservedBlocks <= c[p] < NumBlocks && U0[c[p]]
      requires forall p, q :: 0 <= p < q < |c| ==> c[p] != c[q]
      modifies inodes, used
      ensures inodes[..] == old(inodes[..])[i := old(inodes[i]).(blocks := EmptyChain())]
      ensures Released(U0, used[..], c, |c|)
    {
      var chain := inodes[i].blocks;
      var j := 0;
      while j < ChainSlots
        invariant 0 <= j <= |c|
        invariant unchanged(inodes)
        invariant Cleared(old(inodes[i].blocks), chain, j)
        invariant Released(U0, used[..], c, j)
      {
        var b := chain[j];
        if b == NoBlock {
          break;
        }
        ReleasedStep(U0, used[..], c, j);
        used[b] := false;
        ClearedStep(old(inodes[i].blocks), chain, j);
        chain := chain[j := NoBlock];
        j := j + 1;
      }
      ClearedAll(old(inodes[i].blocks), chain, j);
      inodes[i] := inodes[i].(blocks := chain);
    }

    /**
     * Attribute: sets or clears the hidden or read-only flag of the file
     * `name` (flag "+h", "-h", "+r" or "-r"). Refuses an invalid name, then a
     * name that is not stored, then any other flag, changing nothing.
     */
    method Attribute(flag: string, name: string) returns (status: Status)
      requires Valid()
      modifies inodes
      ensures Valid()
      ensures status == (if !NameOk(name) then NameInvalid
                         else if old(Flags(name)).None? then NotFound
                         else if SetFlag(flag, old(Flags(name)).value).None? then InvalidFlag
                         else Ok)
      ensures status != Ok ==> inodes[..] == old(inodes[..])
      ensures status == Ok ==> Flags(name) == SetFlag(flag, old(Flags(name)).value)
      ensures status == Ok ==>
        var d := FindEntry(dir[..], name);
        0 <= d < NumFiles && 0 <= dir[d].inode < NumFiles &&
        inodes[..] == old(inodes[..])[dir[d].inode := old(inodes[dir[d].inode]).(hidden := Flags(name).value.hidden,
                                                                                 readOnly := Flags(name).value.readOnly)]
      ensures forall n :: Content(n) == old(Content(n))
      ensures forall n :: n != name ==> Flags(n) == old(Flags(n))
    {
      ghost var I0 := inodes[..];
      var nameOk := CheckName(Some(name));
      if !nameOk {
        return NameInvalid;
      }
      var d := FindFileDirectoryIndex(name);
      if d == -1 {
        return NotFound;
      }
      var i := dir[d].inode;
      if flag == "+h" {
        inodes[i] := inodes[i].(hidden := true);
      } else if flag == "-h" {
        inodes[i] := inodes[i].(hidden := false);
      } else if flag == "-r" {
        inodes[i] := inodes[i].(readOnly := false);
      } else if flag == "+r" {
        inodes[i] := inodes[i].(readOnly := true);
      } else {
        return InvalidFlag;
      }
      FlagsChanged(dir[..], I0, inodes[..], used[..], blocks[..], owner, name);
      return Ok;
    }

    /**
     * List: one line per valid directory entry whose inode is not hidden,
     * in directory order, giving the size, time stamp and name.
     */
    method List() returns (listing: seq<Listing>)
      requires Valid()
      ensures listing == Visible(dir[..], inodes[..])
    {
      listing := [];
      var e := 0;
      while e < dir.Length
        invariant 0 <= e <= dir.Length
        invariant listing == Visible(dir[..e], inodes[..])
      {
        assert dir[..e + 1][..e] == dir[..e];
        if dir[e].valid {
          var i := dir[e].inode;
          if !inodes[i].hidden {
            listing := listing + [Listing(inodes[i].size, inodes[i].timeStamp, dir[e].filename)];
          }
        }
        e := e + 1;
      }
      assert dir[..e] == dir[..];
    }

    /**
     * Create a filesystem image: when the host file can be opened for
     * writing, the arena is zeroed and every table is reset, leaving an empty
     * filesystem; otherwise nothing changes.
     */
    method CreateFs(writable: bool) returns (status: Status)
      requires Valid()
      modifies dir, inodes, used, blocks, this`owner
      ensures Valid()
      ensures !writable ==> status == DestinationUnwritable && unchanged(dir, inodes, used, blocks) && owner == old(owner)
      ensures writable ==>
        status == Ok &&
        (forall e :: 0 <= e < NumFiles ==> dir[e] == BlankEntry) &&
        (forall i :: 0 <= i < NumFiles ==> inodes[i] == BlankInode(inodes[i].timeStamp)) &&
        (forall b :: 0 <= b < NumBlocks ==> used[b] == (b < ReservedBlocks)) &&
        (forall name :: Content(name) == None) &&
        FreeSpace() == (NumBlocks - ReservedBlocks) * BlockSize &&
        (forall b :: 0 <= b < NumBlocks ==> blocks[b] == ZeroBlock())
    {
      if !writable {
        return DestinationUnwritable;
      }
      ZeroArena();
      InitializeDirectory();
      InitializeInodes();
      InitializeBlockList();
      ReserveTableBlocks();
      owner := seq(NumBlocks, _ => Unowned);
      EmptyIsConsistent();
      return Ok;
    }

    /** Zeroes every block of the arena. */
    method ZeroArena()
      modifies blocks
      ensures forall b :: 0 <= b < blocks.Length ==> blocks[b] == ZeroBlock()
    {
      var b := 0;
      while b < blocks.Length
        invariant 0 <= b <= blocks.Length
        invariant forall x :: 0 <= x < b ==> blocks[x] == ZeroBlock()
      {
        blocks[b] := ZeroBlock();
        b := b + 1;
      }
    }
  }
}
