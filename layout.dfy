/** Geometry of the filesystem image and the records stored in its tables. */
module Layout {

  /** Number of blocks in the arena. */
  const NumBlocks: int := 4226
  /** Bytes per block. */
  const BlockSize: int := 8192
  /** Capacity of the directory table and of the inode table. */
  const NumFiles: int := 128
  /** Longest file name the directory accepts. */
  const NameLength: int := 32
  /** Largest file that can be stored. */
  const MaxFileSize: int := 10240000
  /** Slots in an inode's block chain. */
  const ChainSlots: int := 1250
  /** Blocks 0..13 hold the tables and are never handed out for file data. */
  const ReservedBlocks: int := 14
  /** The block allocator starts its scan here. */
  const ScanStart: int := 4
  /** Chain slot value meaning "no block". */
  const NoBlock: int := -1

  datatype Option<T> = None | Some(value: T)

  /** One directory slot: a name bound to an inode slot. */
  datatype DirEntry = DirEntry(valid: bool, filename: string, inode: int)

  /** One inode slot. The time stamp is an opaque value supplied by the caller. */
  datatype Inode = Inode(valid: bool, size: int, blocks: seq<int>, hidden: bool, readOnly: bool, timeStamp: int)

  /** A directory slot as the initialiser and delete leave it. */
  const BlankEntry: DirEntry := DirEntry(false, "", -1)

  /** A chain with every slot empty. */
  function EmptyChain(): (c: seq<int>)
    ensures |c| == ChainSlots && forall p :: 0 <= p < ChainSlots ==> c[p] == NoBlock
  {
    seq(ChainSlots, _ => NoBlock)
  }

  /** A block of zero bytes. */
  function ZeroBlock(): (z: seq<bv8>)
    ensures |z| == BlockSize && forall j :: 0 <= j < |z| ==> z[j] == 0
  {
    seq(BlockSize, _ => 0)
  }

  /** An inode slot as the initialiser and delete leave it; they do not touch the time stamp. */
  function BlankInode(timeStamp: int): Inode
  {
    Inode(false, 0, EmptyChain(), false, false, timeStamp)
  }

  /** Number of blocks a file of `size` bytes occupies: the ceiling of size / BlockSize. */
  function BlocksNeeded(size: int): (n: int)
    requires 0 <= size
    ensures 0 <= n
    ensures n * BlockSize >= size
    ensures size > (n - 1) * BlockSize || (size == 0 && n == 0)
  {
    (size + BlockSize - 1) / BlockSize
  }

  /** Number of chain slots an inode uses. */
  function ChainLen(ino: Inode): int
    requires 0 <= ino.size
  {
    BlocksNeeded(ino.size)
  }

  /** Smaller of two integers. */
  function Min(a: int, b: int): int
  {
    if a <= b then a else b
  }

  /** The largest file fills the chain exactly. */
  lemma MaxFileFillsChain()
    ensures BlocksNeeded(MaxFileSize) == ChainSlots
  {
  }

  /** A block index below `n` blocks is reached exactly while fewer than `size` bytes precede it. */
  lemma BlocksNeededIndex(size: int, k: int)
    requires 0 <= size && 0 <= k
    ensures k < BlocksNeeded(size) <==> k * BlockSize < size
  {
  }

  /** A larger file never needs fewer blocks. */
  lemma BlocksNeededMonotone(a: int, b: int)
    requires 0 <= a <= b
    ensures BlocksNeeded(a) <= BlocksNeeded(b)
  {
  }

  /** A file that fits in `free` whole blocks needs no more than `free` blocks. */
  lemma BlocksNeededFits(size: int, free: int)
    requires 0 <= size && 0 <= free
    requires size <= BlockSize * free
    ensures BlocksNeeded(size) <= free
  {
  }
}
