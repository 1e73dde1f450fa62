/**
 * The consistency rules the filesystem's tables obey, stated over snapshots
 * of the tables so that they can be reasoned about without the heap.
 */
module FsState {
  import opened Layout
  import opened Bitmap
  import opened Names
  import opened Tables
  import opened ByteChain

  /** Which inode chain slot a block is recorded in (bookkeeping for the proofs only). */
  datatype Owner = Unowned | Slot(ino: int, pos: int)

  /**
   * An inode's chain has ChainSlots entries; the first ChainLen of them are
   * the file's blocks and every later one is the NoBlock sentinel.
   */
  predicate InodeShaped(n: Inode)
  {
    |n.blocks| == ChainSlots && 0 <= n.size <= MaxFileSize &&
    forall p :: BlocksNeeded(n.size) <= p < ChainSlots ==> n.blocks[p] == NoBlock
  }

  /** The blocks of an inode's file, in order. */
  function Chain(n: Inode): (c: seq<int>)
    requires InodeShaped(n)
    ensures |c| == ChainLen(n)
  {
    n.blocks[..ChainLen(n)]
  }

  /** Enough structure to read any file: table sizes, chain shapes, block indices in the data area. */
  predicate Addressable(ds: seq<DirEntry>, ins: seq<Inode>, arena: seq<seq<bv8>>)
  {
    |ds| == NumFiles && |ins| == NumFiles && |arena| == NumBlocks &&
    (forall b :: 0 <= b < NumBlocks ==> |arena[b]| == BlockSize) &&
    (forall i :: 0 <= i < NumFiles ==> InodeShaped(ins[i])) &&
    (forall i, p :: 0 <= i < NumFiles && ins[i].valid && 0 <= p < ChainLen(ins[i]) ==>
       ReservedBlocks <= ins[i].blocks[p] < NumBlocks) &&
    EntriesInRange(ds, ins) &&
    (forall e :: 0 <= e < NumFiles && ds[e].valid ==> ins[ds[e].inode].valid)
  }

  lemma ChainReadable(ds: seq<DirEntry>, ins: seq<Inode>, arena: seq<seq<bv8>>, i: int)
    requires Addressable(ds, ins, arena)
    requires 0 <= i < NumFiles && ins[i].valid
    ensures ChainInArena(arena, Chain(ins[i]))
  {
    var c := Chain(ins[i]);
    forall p | 0 <= p < |c|
      ensures 0 <= c[p] < |arena| && |arena[c[p]]| == BlockSize
    {
      assert c[p] == ins[i].blocks[p];
    }
  }

  /** The bytes of the file an inode describes. */
  function FileBytes(ds: seq<DirEntry>, ins: seq<Inode>, arena: seq<seq<bv8>>, i: int): seq<bv8>
    requires Addressable(ds, ins, arena)
    requires 0 <= i < NumFiles && ins[i].valid
  {
    ChainReadable(ds, ins, arena, i);
    ReadChain(arena, Chain(ins[i]), ins[i].size)
  }

  /** The contents of the file called `name`, if there is one. */
  function FileOf(ds: seq<DirEntry>, ins: seq<Inode>, arena: seq<seq<bv8>>, name: string): Option<seq<bv8>>
    requires Addressable(ds, ins, arena)
  {
    var d := FindEntry(ds, name);
    if d == -1 then None else Some(FileBytes(ds, ins, arena, ds[d].inode))
  }

  /** Every block of every valid chain is marked used and recorded as belonging to that slot. */
  predicate ChainsOwned(ds: seq<DirEntry>, ins: seq<Inode>, arena: seq<seq<bv8>>, us: seq<bool>, owner: seq<Owner>)
    requires Addressable(ds, ins, arena)
    requires |us| == NumBlocks && |owner| == NumBlocks
  {
    forall i, p :: 0 <= i < NumFiles && ins[i].valid && 0 <= p < ChainLen(ins[i]) ==>
      us[ins[i].blocks[p]] && owner[ins[i].blocks[p]] == Slot(i, p)
  }

  /** Every used data block is in some valid chain: no block leaks. */
  predicate OwnersLive(ins: seq<Inode>, us: seq<bool>, owner: seq<Owner>)
    requires |ins| == NumFiles && (forall i :: 0 <= i < NumFiles ==> InodeShaped(ins[i]))
    requires |us| == NumBlocks && |owner| == NumBlocks
  {
    forall b :: ReservedBlocks <= b < NumBlocks && us[b] ==>
      owner[b].Slot? && 0 <= owner[b].ino < NumFiles && ins[owner[b].ino].valid && InodeShaped(ins[owner[b].ino]) &&
      0 <= owner[b].pos < ChainLen(ins[owner[b].ino]) && ins[owner[b].ino].blocks[owner[b].pos] == b
  }

  /** No two valid entries share an inode. */
  predicate DistinctInodes(ds: seq<DirEntry>)
  {
    forall e, f :: 0 <= e < |ds| && 0 <= f < |ds| && e != f && ds[e].valid && ds[f].valid ==>
      ds[e].inode != ds[f].inode
  }

  /** The filesystem invariant. */
  predicate Consistent(ds: seq<DirEntry>, ins: seq<Inode>, us: seq<bool>, arena: seq<seq<bv8>>, owner: seq<Owner>)
  {
    Addressable(ds, ins, arena) && |us| == NumBlocks && |owner| == NumBlocks &&
    (forall b :: 0 <= b < ReservedBlocks ==> us[b]) &&
    (forall i :: 0 <= i < NumFiles && !ins[i].valid ==> ins[i] == BlankInode(ins[i].timeStamp)) &&
    ChainsOwned(ds, ins, arena, us, owner) &&
    OwnersLive(ins, us, owner) &&
    (forall e :: 0 <= e < NumFiles && ds[e].valid ==> NameOk(ds[e].filename)) &&
    UniqueNames(ds) &&
    DistinctInodes(ds)
  }

  /** A file's bytes depend only on its inode's size and chain and on the blocks of that chain. */
  lemma FileBytesFrame(ds1: seq<DirEntry>, ins1: seq<Inode>, a1: seq<seq<bv8>>,
                       ds2: seq<DirEntry>, ins2: seq<Inode>, a2: seq<seq<bv8>>, j: int)
    requires Addressable(ds1, ins1, a1) && Addressable(ds2, ins2, a2)
    requires 0 <= j < NumFiles && ins1[j].valid && ins2[j].valid
    requires ins2[j].size == ins1[j].size && ins2[j].blocks == ins1[j].blocks
    requires forall p :: 0 <= p < ChainLen(ins1[j]) ==> a1[ins1[j].blocks[p]] == a2[ins1[j].blocks[p]]
    ensures FileBytes(ds1, ins1, a1, j) == FileBytes(ds2, ins2, a2, j)
  {
    var c := Chain(ins1[j]);
    ChainReadable(ds1, ins1, a1, j);
    ChainReadable(ds2, ins2, a2, j);
    forall p | 0 <= p < |c| ensures a1[c[p]] == a2[c[p]] {
      assert c[p] == ins1[j].blocks[p];
    }
    ReadChainFrame(a1, a2, c, ins1[j].size);
  }

  /**
   * Lookups that find the same slot, bound to the same inode with unchanged
   * size and chain whose blocks hold the same bytes, yield the same file.
   */
  lemma FileOfFrame(ds1: seq<DirEntry>, ins1: seq<Inode>, a1: seq<seq<bv8>>,
                    ds2: seq<DirEntry>, ins2: seq<Inode>, a2: seq<seq<bv8>>, name: string)
    requires Addressable(ds1, ins1, a1) && Addressable(ds2, ins2, a2)
    requires FindEntry(ds2, name) == FindEntry(ds1, name)
    requires FindEntry(ds1, name) != -1 ==>
      var j := ds1[FindEntry(ds1, name)].inode;
      ds2[FindEntry(ds1, name)].inode == j &&
      ins2[j].size == ins1[j].size && ins2[j].blocks == ins1[j].blocks &&
      forall p :: 0 <= p < ChainLen(ins1[j]) ==> a1[ins1[j].blocks[p]] == a2[ins1[j].blocks[p]]
    ensures FileOf(ds1, ins1, a1, name) == FileOf(ds2, ins2, a2, name)
  {
    var d := FindEntry(ds1, name);
    if d != -1 {
      FileBytesFrame(ds1, ins1, a1, ds2, ins2, a2, ds1[d].inode);
    }
  }

  /**
   * Progress of the store command's copy loop after k blocks: starting from
   * bitmap U0, arena A0 and owners O0, the first k chain slots name distinct
   * formerly free data blocks, each holding its chunk of `bytes`; exactly
   * those blocks became used, and every block used before is untouched.
   * Which free blocks were taken is stated by FirstFit.
   */
  ghost predicate Copied(U0: seq<bool>, A0: seq<seq<bv8>>, O0: seq<Owner>,
                         us: seq<bool>, arena: seq<seq<bv8>>, owner: seq<Owner>,
                         chain: seq<int>, i: int, bytes: seq<bv8>, k: int)
  {
    |U0| == NumBlocks && |A0| == NumBlocks && |O0| == NumBlocks &&
    |us| == NumBlocks && |arena| == NumBlocks && |owner| == NumBlocks &&
    0 <= k <= BlocksNeeded(|bytes|) && k <= ChainSlots && |chain| == ChainSlots &&
    (forall x :: 0 <= x < NumBlocks ==> |arena[x]| == BlockSize) &&
    (forall p :: k <= p < ChainSlots ==> chain[p] == NoBlock) &&
    (forall p :: 0 <= p < k ==>
       ReservedBlocks <= chain[p] < NumBlocks && !U0[chain[p]] && owner[chain[p]] == Slot(i, p) &&
       arena[chain[p]][..ChunkLen(|bytes|, p)] == Chunk(bytes, p)) &&
    (forall x :: 0 <= x < NumBlocks ==> us[x] == (U0[x] || x in chain[..k])) &&
    (forall x :: 0 <= x < NumBlocks && U0[x] ==> arena[x] == A0[x] && owner[x] == O0[x]) &&
    CountFree(us) == CountFree(U0) - k
  }

  /**
   * The first k chain blocks were taken first-fit: they ascend, and every
   * block from ScanStart up to the last of them is now in use, so no free
   * block was passed over.
   */
  predicate FirstFit(chain: seq<int>, k: int, us: seq<bool>)
    requires 0 <= k <= |chain|
  {
    (forall p :: 0 < p < k ==> chain[p - 1] < chain[p]) &&
    (0 < k ==> forall x :: ScanStart <= x <= chain[k - 1] && x < |us| ==> us[x])
  }

  /** First-fit of the first k slots is a property of those slots alone. */
  lemma FirstFitPrefix(chain: seq<int>, k: int, us: seq<bool>)
    requires 0 <= k <= |chain| && FirstFit(chain, k, us)
    ensures FirstFit(chain[..k], k, us)
  {
  }

  /** Before the first block nothing is copied. */
  lemma CopiedStart(U0: seq<bool>, A0: seq<seq<bv8>>, O0: seq<Owner>, i: int, bytes: seq<bv8>)
    requires |U0| == NumBlocks && |A0| == NumBlocks && |O0| == NumBlocks
    requires forall x :: 0 <= x < NumBlocks ==> |A0[x]| == BlockSize
    requires |bytes| >= 0
    ensures Copied(U0, A0, O0, U0, A0, O0, EmptyChain(), i, bytes, 0)
  {
    assert EmptyChain()[..0] == [];
  }

  /** Claiming a free data block for chunk k and filling it extends the progress by one block. */
  lemma CopiedStep(U0: seq<bool>, A0: seq<seq<bv8>>, O0: seq<Owner>,
                   us: seq<bool>, arena: seq<seq<bv8>>, owner: seq<Owner>,
                   chain: seq<int>, i: int, bytes: seq<bv8>, k: int, b: int)
    requires Copied(U0, A0, O0, us, arena, owner, chain, i, bytes, k)
    requires k < BlocksNeeded(|bytes|) && k < ChainSlots
    requires ReservedBlocks <= b < NumBlocks && b == FirstFree(us, ScanStart)
    ensures Copied(U0, A0, O0, us[b := true],
                   arena[b := Chunk(bytes, k) + arena[b][ChunkLen(|bytes|, k)..]],
                   owner[b := Slot(i, k)], chain[k := b], i, bytes, k + 1)
  {
    var chain' := chain[k := b];
    assert chain'[..k + 1] == chain[..k] + [b];
    forall p | 0 <= p < k ensures chain[p] != b {
      assert chain[p] in chain[..k];
    }
    CountFreeMark(us, b);
  }

  /** Taking the first free block from ScanStart on keeps the chain first-fit. */
  lemma FirstFitStep(chain: seq<int>, k: int, us: seq<bool>, b: int)
    requires 0 <= k < |chain| && FirstFit(chain, k, us)
    requires 0 <= b < |us| && b == FirstFree(us, ScanStart)
    ensures FirstFit(chain[k := b], k + 1, us[b := true])
  {
    if 0 < k {
      assert !us[b] && ScanStart <= b;
      assert chain[k - 1] < b;
    }
  }

  /** Releasing the k copied blocks and a just-claimed block b restores the bitmap. */
  lemma CopiedRollback(U0: seq<bool>, A0: seq<seq<bv8>>, O0: seq<Owner>,
                       us: seq<bool>, arena: seq<seq<bv8>>, owner: seq<Owner>,
                       chain: seq<int>, i: int, bytes: seq<bv8>, k: int, b: int, released: seq<bool>)
    requires Copied(U0, A0, O0, us, arena, owner, chain, i, bytes, k)
    requires 0 <= b < NumBlocks && !us[b]
    requires |released| == NumBlocks
    requires forall x :: 0 <= x < NumBlocks ==> released[x] == (us[b := true][x] && x !in chain[..k] + [b])
    ensures released == U0
  {
    forall x | 0 <= x < NumBlocks ensures released[x] == U0[x] {
      if x in chain[..k] {
        var p :| 0 <= p < k && chain[..k][p] == x;
        assert chain[p] == x;
      }
    }
  }

  /** The two attribute flags of a file. */
  datatype Attrs = Attrs(hidden: bool, readOnly: bool)

  /**
   * The attributes after the attribute command with `flag`: "+h" and "-h"
   * set and clear hidden, "+r" and "-r" set and clear read-only; any other
   * flag is refused.
   */
  function SetFlag(flag: string, a: Attrs): (r: Option<Attrs>)
    ensures r.None? <==> flag !in {"+h", "-h", "+r", "-r"}
    ensures r.Some? ==> (r.value.hidden == (flag == "+h" || (flag != "-h" && a.hidden)))
    ensures r.Some? ==> (r.value.readOnly == (flag == "+r" || (flag != "-r" && a.readOnly)))
  {
    if flag == "+h" then Some(a.(hidden := true))
    else if flag == "-h" then Some(a.(hidden := false))
    else if flag == "-r" then Some(a.(readOnly := false))
    else if flag == "+r" then Some(a.(readOnly := true))
    else None
  }

  /** The attributes of the file called `name`, if there is one. */
  function AttrsOf(ds: seq<DirEntry>, ins: seq<Inode>, name: string): Option<Attrs>
    requires EntriesInRange(ds, ins)
  {
    var d := FindEntry(ds, name);
    if d == -1 then None else Some(Attrs(ins[ds[d].inode].hidden, ins[ds[d].inode].readOnly))
  }

  /**
   * A file is listed exactly when it is stored and not hidden: a hidden file
   * drops out of the listing although lookup by name still finds it.
   */
  lemma ListedIffNotHidden(ds: seq<DirEntry>, ins: seq<Inode>, name: string)
    requires EntriesInRange(ds, ins) && UniqueNames(ds)
    ensures (exists k :: 0 <= k < |Visible(ds, ins)| && Visible(ds, ins)[k].filename == name) <==>
            (AttrsOf(ds, ins, name).Some? && !AttrsOf(ds, ins, name).value.hidden)
  {
    VisibleIff(ds, ins, name);
    var d := FindEntry(ds, name);
    if exists i :: 0 <= i < |ds| && Shown(ds, ins, i) && ds[i].filename == name {
      var i :| 0 <= i < |ds| && Shown(ds, ins, i) && ds[i].filename == name;
      FindEntryOfUnique(ds, i);
    }
    if d != -1 && !ins[ds[d].inode].hidden {
      assert Shown(ds, ins, d);
    }
  }

  /** The blocks of a valid chain are pairwise distinct. */
  lemma ChainDistinct(ds: seq<DirEntry>, ins: seq<Inode>, us: seq<bool>, arena: seq<seq<bv8>>, owner: seq<Owner>, i: int)
    requires Consistent(ds, ins, us, arena, owner)
    requires 0 <= i < NumFiles && ins[i].valid
    ensures forall p, q :: 0 <= p < q < ChainLen(ins[i]) ==> ins[i].blocks[p] != ins[i].blocks[q]
  {
    forall p, q | 0 <= p < q < ChainLen(ins[i]) ensures ins[i].blocks[p] != ins[i].blocks[q] {
      assert owner[ins[i].blocks[p]] == Slot(i, p);
      assert owner[ins[i].blocks[q]] == Slot(i, q);
    }
  }

  /** Two valid inodes never share a data block: their chains are disjoint. */
  lemma ChainsDisjoint(ds: seq<DirEntry>, ins: seq<Inode>, us: seq<bool>, arena: seq<seq<bv8>>, owner: seq<Owner>,
                       i: int, j: int)
    requires Consistent(ds, ins, us, arena, owner)
    requires 0 <= i < NumFiles && 0 <= j < NumFiles && i != j && ins[i].valid && ins[j].valid
    ensures forall p, q :: 0 <= p < ChainLen(ins[i]) && 0 <= q < ChainLen(ins[j]) ==>
              ins[i].blocks[p] != ins[j].blocks[q]
  {
    forall p, q | 0 <= p < ChainLen(ins[i]) && 0 <= q < ChainLen(ins[j])
      ensures ins[i].blocks[p] != ins[j].blocks[q]
    {
      assert owner[ins[i].blocks[p]] == Slot(i, p);
      assert owner[ins[j].blocks[q]] == Slot(j, q);
    }
  }
}
