/**
 * Sequences of commands run against one filesystem, with what their
 * contracts together promise about the whole sequence.
 */
module Scenarios {
  import opened Layout
  import opened Tables
  import opened FsState
  import opened FileSystem
  import opened Bitmap
  import opened Transitions
  import opened Names

  /**
   * Storing a file with a valid name into a freshly created filesystem
   * succeeds unless the host read fails, and the file then reads back.
   */
  method StoreIntoFresh(name: string, src: HostFile, now: int) returns (fs: FileSystem, status: Status)
    ensures fresh(fs) && fs.Valid()
    ensures NameOk(name) && src.Readable? && |src.bytes| <= MaxFileSize &&
            !ReadFails(src, BlocksNeeded(|src.bytes|)) ==>
              status == Ok && fs.Content(name) == Some(src.bytes)
  {
    fs := new FileSystem();
    ghost var ds, ins := fs.dir[..], fs.inodes[..];
    assert forall e :: 0 <= e < NumFiles ==> !Binds(ds, e, name);
    assert EntryFlags(ds)[0] == false && InodeFlags(ins)[0] == false;
    status := fs.Store(name, src, now);
  }

  /** A file read back right after it is stored has the bytes that were stored. */
  method StoreThenRetrieve(fs: FileSystem, name: string, src: HostFile, now: int) returns (stored: Status, r: Retrieval)
    requires fs.Valid()
    modifies fs.dir, fs.inodes, fs.used, fs.blocks, fs`owner
    ensures fs.Valid()
    ensures stored == Ok ==> src.Readable? && r == Wrote(name, src.bytes)
  {
    stored := fs.Store(name, src, now);
    r := fs.Retrieve(name, None, true);
  }

  /**
   * Deleting a freshly stored file succeeds and returns all its blocks, so
   * the bitmap and the free space are what they were before the store and
   * the directory slot the store claimed is blank again; deleting it a
   * second time reports that the file is not there.
   */
  method StoreDeleteDelete(fs: FileSystem, name: string, src: HostFile, now: int)
    returns (stored: Status, first: Status, second: Status)
    requires fs.Valid()
    modifies fs.dir, fs.inodes, fs.used, fs.blocks, fs`owner
    ensures fs.Valid()
    ensures stored == Ok ==> first == Ok && second == NotFound && fs.FreeSpace() == old(fs.FreeSpace())
    ensures stored == Ok ==>
      var d := FirstFree(EntryFlags(old(fs.dir[..])), 0);
      fs.used[..] == old(fs.used[..]) && 0 <= d < NumFiles && fs.dir[..] == old(fs.dir[..])[d := BlankEntry]
  {
    ghost var D0, I0, U0 := fs.dir[..], fs.inodes[..], fs.used[..];
    stored := fs.Store(name, src, now);
    ghost var D1, I1, U1 := fs.dir[..], fs.inodes[..], fs.used[..];
    first := fs.Delete(name);
    if stored == Ok {
      var d := FirstFree(EntryFlags(D0), 0);
      FindEntryOfUnique(D1, d);
      StoreThenDeleteRestores(D0, I0, U0, D1, I1, U1, fs.dir[..], fs.inodes[..], fs.used[..], name, |src.bytes|, now);
    }
    second := fs.Delete(name);
  }

  /**
   * Hiding a stored file removes it from the listing, while retrieving it
   * by name still yields its bytes.
   */
  method HideThenList(fs: FileSystem, name: string) returns (status: Status, listing: seq<Listing>, r: Retrieval)
    requires fs.Valid()
    modifies fs.inodes
    ensures fs.Valid()
    ensures status == Ok ==>
      (forall k :: 0 <= k < |listing| ==> listing[k].filename != name) &&
      old(fs.Content(name)).Some? && r == Wrote(name, old(fs.Content(name)).value)
  {
    status := fs.Attribute("+h", name);
    listing := fs.List();
    if status == Ok {
      ListedIffNotHidden(fs.dir[..], fs.inodes[..], name);
    }
    r := fs.Retrieve(name, None, true);
  }
}
