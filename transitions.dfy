/**
 * How the table updates of the file commands carry the filesystem invariant
 * (Consistent) and the file contents from one state to the next, stated over
 * snapshots of the tables.
 */
module Transitions {
  import opened Layout
  import opened Bitmap
  import opened Names
  import opened Tables
  import opened ByteChain
  import opened FsState

  /**
   * Bytes of free blocks may change without effect: the invariant still
   * holds and every file reads the same.
   */
  lemma FreeBlocksScribbled(ds: seq<DirEntry>, ins: seq<Inode>, us: seq<bool>,
                            a1: seq<seq<bv8>>, a2: seq<seq<bv8>>, owner: seq<Owner>)
    requires Consistent(ds, ins, us, a1, owner)
    requires |a2| == NumBlocks && forall x :: 0 <= x < NumBlocks ==> |a2[x]| == BlockSize
    requires forall x :: 0 <= x < NumBlocks && us[x] ==> a2[x] == a1[x]
    ensures Consistent(ds, ins, us, a2, owner)
    ensures forall name :: FileOf(ds, ins, a2, name) == FileOf(ds, ins, a1, name)
  {
    assert Addressable(ds, ins, a2);
    forall name ensures FileOf(ds, ins, a2, name) == FileOf(ds, ins, a1, name) {
      var d := FindEntry(ds, name);
      if d != -1 {
        var j := ds[d].inode;
        forall p | 0 <= p < ChainLen(ins[j]) ensures a1[ins[j].blocks[p]] == a2[ins[j].blocks[p]] {
          assert us[ins[j].blocks[p]];
        }
      }
      FileOfFrame(ds, ins, a1, ds, ins, a2, name);
    }
  }

  /** The state the store command commits: the new entry at d, bound to inode i, whose chain was just copied. */
  ghost predicate Committed(D0: seq<DirEntry>, I0: seq<Inode>, U0: seq<bool>, A0: seq<seq<bv8>>, O0: seq<Owner>,
                      ds: seq<DirEntry>, ins: seq<Inode>, us: seq<bool>, arena: seq<seq<bv8>>, owner: seq<Owner>,
                      d: int, i: int, name: string, bytes: seq<bv8>)
  {
    Consistent(D0, I0, U0, A0, O0) &&
    0 <= d < NumFiles && !D0[d].valid && 0 <= i < NumFiles && !I0[i].valid &&
    NameOk(name) && FindEntry(D0, name) == -1 && |bytes| <= MaxFileSize &&
    ds == D0[d := DirEntry(true, name, i)] &&
    |ins| == NumFiles && (forall j :: 0 <= j < NumFiles && j != i ==> ins[j] == I0[j]) &&
    ins[i].valid && ins[i].size == |bytes| &&
    Copied(U0, A0, O0, us, arena, owner, ins[i].blocks, i, bytes, BlocksNeeded(|bytes|)) &&
    FirstFit(ins[i].blocks, BlocksNeeded(|bytes|), us)
  }

  /** A valid entry of the old directory names an inode other than the newly claimed one. */
  lemma OldEntryKeepsInode(D0: seq<DirEntry>, I0: seq<Inode>, U0: seq<bool>, A0: seq<seq<bv8>>, O0: seq<Owner>,
                           i: int, e: int)
    requires Consistent(D0, I0, U0, A0, O0)
    requires 0 <= i < NumFiles && !I0[i].valid
    requires 0 <= e < NumFiles && D0[e].valid
    ensures 0 <= D0[e].inode < NumFiles && D0[e].inode != i && I0[D0[e].inode].valid
  {
  }

  lemma CommittedAddressable(D0: seq<DirEntry>, I0: seq<Inode>, U0: seq<bool>, A0: seq<seq<bv8>>, O0: seq<Owner>,
                             ds: seq<DirEntry>, ins: seq<Inode>, us: seq<bool>, arena: seq<seq<bv8>>, owner: seq<Owner>,
                             d: int, i: int, name: string, bytes: seq<bv8>)
    requires Committed(D0, I0, U0, A0, O0, ds, ins, us, arena, owner, d, i, name, bytes)
    ensures InodeShaped(ins[i])
    ensures Addressable(ds, ins, arena)
  {
    assert InodeShaped(ins[i]);
    forall j | 0 <= j < NumFiles ensures InodeShaped(ins[j]) {
      if j != i { assert InodeShaped(I0[j]); }
    }
    forall e | 0 <= e < NumFiles && ds[e].valid ensures 0 <= ds[e].inode < |ins| && ins[ds[e].inode].valid {
      if e != d { OldEntryKeepsInode(D0, I0, U0, A0, O0, i, e); }
    }
  }

  lemma CommittedOwned(D0: seq<DirEntry>, I0: seq<Inode>, U0: seq<bool>, A0: seq<seq<bv8>>, O0: seq<Owner>,
                       ds: seq<DirEntry>, ins: seq<Inode>, us: seq<bool>, arena: seq<seq<bv8>>, owner: seq<Owner>,
                       d: int, i: int, name: string, bytes: seq<bv8>)
    requires Committed(D0, I0, U0, A0, O0, ds, ins, us, arena, owner, d, i, name, bytes)
    requires Addressable(ds, ins, arena)
    ensures ChainsOwned(ds, ins, arena, us, owner)
    ensures OwnersLive(ins, us, owner)
  {
    var n := BlocksNeeded(|bytes|);
    var c := ins[i].blocks;
    forall j, p | 0 <= j < NumFiles && ins[j].valid && 0 <= p < ChainLen(ins[j])
      ensures us[ins[j].blocks[p]] && owner[ins[j].blocks[p]] == Slot(j, p)
    {
      if j == i {
        assert c[p] in c[..n];
      } else {
        assert U0[I0[j].blocks[p]];
      }
    }
    forall b | ReservedBlocks <= b < NumBlocks && us[b]
      ensures owner[b].Slot? && 0 <= owner[b].ino < NumFiles && ins[owner[b].ino].valid && InodeShaped(ins[owner[b].ino]) &&
              0 <= owner[b].pos < ChainLen(ins[owner[b].ino]) && ins[owner[b].ino].blocks[owner[b].pos] == b
    {
      if U0[b] {
        assert O0[b].ino != i;
      } else {
        var p :| 0 <= p < n && c[..n][p] == b;
        assert c[p] == b;
      }
    }
  }

  lemma CommittedNames(D0: seq<DirEntry>, I0: seq<Inode>, U0: seq<bool>, A0: seq<seq<bv8>>, O0: seq<Owner>,
                       ds: seq<DirEntry>, ins: seq<Inode>, us: seq<bool>, arena: seq<seq<bv8>>, owner: seq<Owner>,
                       d: int, i: int, name: string, bytes: seq<bv8>)
    requires Committed(D0, I0, U0, A0, O0, ds, ins, us, arena, owner, d, i, name, bytes)
    ensures UniqueNames(ds)
    ensures DistinctInodes(ds)
    ensures forall e :: 0 <= e < NumFiles && ds[e].valid ==> NameOk(ds[e].filename)
  {
    forall e | 0 <= e < NumFiles && e != d && D0[e].valid
      ensures D0[e].filename != name && D0[e].inode != i
    {
      assert !Binds(D0, e, name);
      OldEntryKeepsInode(D0, I0, U0, A0, O0, i, e);
    }
  }

  /** What the store command commits is consistent, holds `bytes` under `name` and leaves every other file as it was. */
  lemma StoreCommitted(D0: seq<DirEntry>, I0: seq<Inode>, U0: seq<bool>, A0: seq<seq<bv8>>, O0: seq<Owner>,
                       ds: seq<DirEntry>, ins: seq<Inode>, us: seq<bool>, arena: seq<seq<bv8>>, owner: seq<Owner>,
                       d: int, i: int, name: string, bytes: seq<bv8>)
    requires Committed(D0, I0, U0, A0, O0, ds, ins, us, arena, owner, d, i, name, bytes)
    ensures Consistent(ds, ins, us, arena, owner)
    ensures FileOf(ds, ins, arena, name) == Some(bytes)
    ensures forall nm :: nm != name ==> FileOf(ds, ins, arena, nm) == FileOf(D0, I0, A0, nm)
  {
    CommittedAddressable(D0, I0, U0, A0, O0, ds, ins, us, arena, owner, d, i, name, bytes);
    CommittedOwned(D0, I0, U0, A0, O0, ds, ins, us, arena, owner, d, i, name, bytes);
    CommittedNames(D0, I0, U0, A0, O0, ds, ins, us, arena, owner, d, i, name, bytes);
    forall j | 0 <= j < NumFiles && !ins[j].valid ensures ins[j] == BlankInode(ins[j].timeStamp) {
      assert j != i;
    }
    forall b | 0 <= b < ReservedBlocks ensures us[b] {
      assert U0[b];
    }
    assert Consistent(ds, ins, us, arena, owner);
    StoredReadsBack(ds, ins, arena, d, i, bytes);
    FindEntryOfUnique(ds, d);
    forall nm | nm != name
      ensures FileOf(ds, ins, arena, nm) == FileOf(D0, I0, A0, nm)
    {
      FindEntryUpdate(D0, d, DirEntry(true, name, i), nm);
      var e := FindEntry(D0, nm);
      if e != -1 {
        OldEntryKeepsInode(D0, I0, U0, A0, O0, i, e);
        var j := D0[e].inode;
        forall p | 0 <= p < ChainLen(I0[j]) ensures A0[I0[j].blocks[p]] == arena[I0[j].blocks[p]] {
          assert U0[I0[j].blocks[p]];
        }
      }
      FileOfFrame(D0, I0, A0, ds, ins, arena, nm);
    }
  }

  /** The copied chain of inode i reads back as `bytes`. */
  lemma StoredReadsBack(ds: seq<DirEntry>, ins: seq<Inode>, arena: seq<seq<bv8>>, d: int, i: int, bytes: seq<bv8>)
    requires Addressable(ds, ins, arena)
    requires 0 <= i < NumFiles && ins[i].valid && ins[i].size == |bytes|
    requires forall p :: 0 <= p < BlocksNeeded(|bytes|) ==>
      arena[ins[i].blocks[p]][..ChunkLen(|bytes|, p)] == Chunk(bytes, p)
    ensures FileBytes(ds, ins, arena, i) == bytes
  {
    var c := Chain(ins[i]);
    ChainReadable(ds, ins, arena, i);
    forall k | 0 <= k < |c| ensures arena[c[k]][..ChunkLen(|bytes|, k)] == Chunk(bytes, k) {
      assert c[k] == ins[i].blocks[k];
    }
    ReadChainRoundTrip(arena, c, bytes);
  }

  /**
   * The tables after a successful store of `size` bytes under `name` at time
   * `now`: the first free directory slot now binds `name` to the first free
   * inode, which is valid, visible, writable, stamped `now` and has a chain of
   * formerly free data blocks, taken first-fit; exactly those blocks became used.
   */
  ghost predicate Placed(D0: seq<DirEntry>, I0: seq<Inode>, U0: seq<bool>,
                         ds: seq<DirEntry>, ins: seq<Inode>, us: seq<bool>, name: string, size: int, now: int)
  {
    var d := FirstFree(EntryFlags(D0), 0);
    var i := FirstFree(InodeFlags(I0), 0);
    |D0| == NumFiles && |I0| == NumFiles && |U0| == NumBlocks &&
    |ds| == NumFiles && |ins| == NumFiles && |us| == NumBlocks &&
    0 <= d < NumFiles && 0 <= i < NumFiles &&
    ds == D0[d := DirEntry(true, name, i)] &&
    (forall j :: 0 <= j < NumFiles && j != i ==> ins[j] == I0[j]) &&
    ins[i].valid && ins[i].size == size && !ins[i].hidden && !ins[i].readOnly && ins[i].timeStamp == now &&
    InodeShaped(ins[i]) &&
    (forall p :: 0 <= p < ChainLen(ins[i]) ==> ReservedBlocks <= ins[i].blocks[p] < NumBlocks && !U0[ins[i].blocks[p]]) &&
    (forall b :: 0 <= b < NumBlocks ==> us[b] == (U0[b] || b in Chain(ins[i]))) &&
    FirstFit(Chain(ins[i]), ChainLen(ins[i]), us)
  }

  /** The committed state of the store command is the one Placed describes, with BlocksNeeded(size) fewer free blocks. */
  lemma CommittedPlaced(D0: seq<DirEntry>, I0: seq<Inode>, U0: seq<bool>, A0: seq<seq<bv8>>, O0: seq<Owner>,
                        ds: seq<DirEntry>, ins: seq<Inode>, us: seq<bool>, arena: seq<seq<bv8>>, owner: seq<Owner>,
                        d: int, i: int, name: string, bytes: seq<bv8>, now: int)
    requires Committed(D0, I0, U0, A0, O0, ds, ins, us, arena, owner, d, i, name, bytes)
    requires d == FirstFree(EntryFlags(D0), 0) && i == FirstFree(InodeFlags(I0), 0)
    requires !ins[i].hidden && !ins[i].readOnly && ins[i].timeStamp == now
    ensures Placed(D0, I0, U0, ds, ins, us, name, |bytes|, now)
    ensures CountFree(us) == CountFree(U0) - BlocksNeeded(|bytes|)
  {
    CommittedAddressable(D0, I0, U0, A0, O0, ds, ins, us, arena, owner, d, i, name, bytes);
    var n := BlocksNeeded(|bytes|);
    assert ChainLen(ins[i]) == n;
    FirstFitPrefix(ins[i].blocks, n, us);
  }

  /** A freshly stored file is found under its name, neither hidden nor read-only. */
  lemma PlacedAttrs(D0: seq<DirEntry>, I0: seq<Inode>, U0: seq<bool>,
                    ds: seq<DirEntry>, ins: seq<Inode>, us: seq<bool>, name: string, size: int, now: int)
    requires Placed(D0, I0, U0, ds, ins, us, name, size, now)
    requires EntriesInRange(ds, ins) && UniqueNames(ds)
    ensures AttrsOf(ds, ins, name) == Some(Attrs(false, false))
  {
    FindEntryOfUnique(ds, FirstFree(EntryFlags(D0), 0));
  }

  /**
   * Storing a file and then deleting it gives back exactly the bitmap the
   * store started from, hence the same free space, and the directory slot
   * the store claimed is blank again.
   */
  lemma StoreThenDeleteRestores(D0: seq<DirEntry>, I0: seq<Inode>, U0: seq<bool>,
                                ds: seq<DirEntry>, ins: seq<Inode>, us: seq<bool>,
                                ds2: seq<DirEntry>, ins2: seq<Inode>, us2: seq<bool>,
                                name: string, size: int, now: int)
    requires Placed(D0, I0, U0, ds, ins, us, name, size, now)
    requires Deleted(ds, ins, us, ds2, ins2, us2, FirstFree(EntryFlags(D0), 0), FirstFree(InodeFlags(I0), 0))
    ensures us2 == U0
    ensures CountFree(us2) == CountFree(U0)
    ensures ds2 == D0[FirstFree(EntryFlags(D0), 0) := BlankEntry]
    ensures forall j :: 0 <= j < NumFiles && j != FirstFree(InodeFlags(I0), 0) ==> ins2[j] == I0[j]
  {
    var i := FirstFree(InodeFlags(I0), 0);
    var c := Chain(ins[i]);
    forall x | 0 <= x < NumBlocks ensures us2[x] == U0[x] {
      if x in c {
        var p :| 0 <= p < |c| && c[p] == x;
        assert !U0[ins[i].blocks[p]];
      }
    }
  }

  /**
   * Progress of the delete command's release loop after j chain slots:
   * exactly the first j blocks of chain c have been freed, one free block
   * gained for each.
   */
  ghost predicate Released(U0: seq<bool>, us: seq<bool>, c: seq<int>, j: int)
  {
    |us| == |U0| && 0 <= j <= |c| &&
    (forall x :: 0 <= x < |us| ==> us[x] == (U0[x] && x !in c[..j])) &&
    CountFree(us) == CountFree(U0) + j
  }

  /** Freeing the next chain block, still in use and not freed before, advances the release by one. */
  lemma ReleasedStep(U0: seq<bool>, us: seq<bool>, c: seq<int>, j: int)
    requires Released(U0, us, c, j) && j < |c|
    requires 0 <= c[j] < |us| && U0[c[j]]
    requires forall p :: 0 <= p < j ==> c[p] != c[j]
    ensures Released(U0, us[c[j] := false], c, j + 1)
  {
    assert c[..j + 1] == c[..j] + [c[j]];
    assert c[j] !in c[..j];
    CountFreeRelease(us, c[j]);
  }

  /** The first j slots of chain `cur` are reset to NoBlock; the rest are still those of `orig`. */
  ghost predicate Cleared(orig: seq<int>, cur: seq<int>, j: int)
  {
    |cur| == |orig| && 0 <= j <= |orig| &&
    (forall p :: 0 <= p < j ==> cur[p] == NoBlock) &&
    (forall p :: j <= p < |orig| ==> cur[p] == orig[p])
  }

  lemma ClearedStep(orig: seq<int>, cur: seq<int>, j: int)
    requires Cleared(orig, cur, j) && j < |orig|
    ensures Cleared(orig, cur[j := NoBlock], j + 1)
  {
  }

  /** Once the walk reaches a NoBlock slot (or the end) of a chain whose tail is all NoBlock, every slot is NoBlock. */
  lemma ClearedAll(orig: seq<int>, cur: seq<int>, j: int)
    requires Cleared(orig, cur, j) && |orig| == ChainSlots
    requires j == |orig| || cur[j] == NoBlock
    requires forall p :: j < p < |orig| ==> orig[p] == NoBlock
    ensures cur == EmptyChain()
  {
  }

  /** The tables after deleting the file in directory slot d, whose inode is i and whose chain was freed. */
  ghost predicate Deleted(D0: seq<DirEntry>, I0: seq<Inode>, U0: seq<bool>,
                          ds: seq<DirEntry>, ins: seq<Inode>, us: seq<bool>, d: int, i: int)
  {
    |D0| == NumFiles && |I0| == NumFiles && |U0| == NumBlocks && 0 <= d < NumFiles && 0 <= i < NumFiles &&
    InodeShaped(I0[i]) &&
    ds == D0[d := BlankEntry] &&
    ins == I0[i := BlankInode(I0[i].timeStamp)] &&
    |us| == NumBlocks && forall x :: 0 <= x < NumBlocks ==> us[x] == (U0[x] && x !in Chain(I0[i]))
  }

  /** Deleting a file keeps the invariant. */
  lemma DeletedConsistent(D0: seq<DirEntry>, I0: seq<Inode>, U0: seq<bool>, A0: seq<seq<bv8>>, O0: seq<Owner>,
                          ds: seq<DirEntry>, ins: seq<Inode>, us: seq<bool>, d: int)
    requires Consistent(D0, I0, U0, A0, O0)
    requires 0 <= d < NumFiles && D0[d].valid
    requires Deleted(D0, I0, U0, ds, ins, us, d, D0[d].inode)
    ensures Consistent(ds, ins, us, A0, O0)
  {
    var i := D0[d].inode;
    var c := Chain(I0[i]);
    forall e | 0 <= e < NumFiles && e != d && D0[e].valid ensures D0[e].inode != i {}
    assert Addressable(ds, ins, A0);
    forall j, p | 0 <= j < NumFiles && ins[j].valid && 0 <= p < ChainLen(ins[j])
      ensures us[ins[j].blocks[p]] && O0[ins[j].blocks[p]] == Slot(j, p)
    {
      assert O0[ins[j].blocks[p]] == Slot(j, p);
    }
    assert ChainsOwned(ds, ins, A0, us, O0);
    forall b | ReservedBlocks <= b < NumBlocks && us[b]
      ensures O0[b].Slot? && O0[b].ino != i
    {
    }
  }

  /**
   * Deleting a file keeps the invariant, leaves no file under its name, and
   * keeps every other file and its attributes.
   */
  lemma DeleteReleases(D0: seq<DirEntry>, I0: seq<Inode>, U0: seq<bool>, A0: seq<seq<bv8>>, O0: seq<Owner>,
                       ds: seq<DirEntry>, ins: seq<Inode>, us: seq<bool>, name: string)
    requires Consistent(D0, I0, U0, A0, O0)
    requires FindEntry(D0, name) != -1
    requires Deleted(D0, I0, U0, ds, ins, us, FindEntry(D0, name), D0[FindEntry(D0, name)].inode)
    ensures Consistent(ds, ins, us, A0, O0)
    ensures FileOf(ds, ins, A0, name) == None
    ensures forall nm :: nm != name ==> FileOf(ds, ins, A0, nm) == FileOf(D0, I0, A0, nm)
    ensures forall nm :: nm != name ==> AttrsOf(ds, ins, nm) == AttrsOf(D0, I0, nm)
  {
    var d := FindEntry(D0, name);
    var i := D0[d].inode;
    DeletedConsistent(D0, I0, U0, A0, O0, ds, ins, us, d);
    forall e | 0 <= e < NumFiles ensures !Binds(ds, e, name) {
    }
    forall nm | nm != name
      ensures FileOf(ds, ins, A0, nm) == FileOf(D0, I0, A0, nm)
      ensures AttrsOf(ds, ins, nm) == AttrsOf(D0, I0, nm)
    {
      FindEntryUpdate(D0, d, BlankEntry, nm);
      var e := FindEntry(D0, nm);
      if e != -1 {
        assert e != d;
      }
      FileOfFrame(D0, I0, A0, ds, ins, A0, nm);
    }
  }

  /**
   * Changing only the hidden and read-only flags of a file's inode keeps the
   * invariant, every file's contents and every other file's attributes.
   */
  lemma FlagsChanged(ds: seq<DirEntry>, I0: seq<Inode>, ins: seq<Inode>, us: seq<bool>, arena: seq<seq<bv8>>,
                     owner: seq<Owner>, name: string)
    requires Consistent(ds, I0, us, arena, owner)
    requires FindEntry(ds, name) != -1
    requires |ins| == |I0|
    requires var i := ds[FindEntry(ds, name)].inode;
      ins == I0[i := I0[i].(hidden := ins[i].hidden, readOnly := ins[i].readOnly)]
    ensures Consistent(ds, ins, us, arena, owner)
    ensures forall n :: FileOf(ds, ins, arena, n) == FileOf(ds, I0, arena, n)
    ensures forall n :: n != name ==> AttrsOf(ds, ins, n) == AttrsOf(ds, I0, n)
  {
    var d := FindEntry(ds, name);
    var i := ds[d].inode;
    FlagsKeepConsistent(ds, I0, ins, us, arena, owner, i);
    forall n ensures FileOf(ds, ins, arena, n) == FileOf(ds, I0, arena, n) {
      FileOfFrame(ds, I0, arena, ds, ins, arena, n);
    }
    forall n | n != name ensures AttrsOf(ds, ins, n) == AttrsOf(ds, I0, n) {
      var e := FindEntry(ds, n);
      if e != -1 {
        assert e != d;
      }
    }
  }

  /** The invariant does not mention the hidden and read-only flags. */
  lemma FlagsKeepConsistent(ds: seq<DirEntry>, I0: seq<Inode>, ins: seq<Inode>, us: seq<bool>, arena: seq<seq<bv8>>,
                            owner: seq<Owner>, i: int)
    requires Consistent(ds, I0, us, arena, owner)
    requires 0 <= i < |I0| == |ins| && I0[i].valid
    requires ins == I0[i := I0[i].(hidden := ins[i].hidden, readOnly := ins[i].readOnly)]
    ensures Consistent(ds, ins, us, arena, owner)
  {
    assert InodeShaped(ins[i]);
    assert Addressable(ds, ins, arena);
    assert ChainsOwned(ds, ins, arena, us, owner);
  }
}
