/** The directory and inode tables viewed as sequences: lookup, listing, validity flags. */
module Tables {
  import opened Layout

  /** The valid flags of the directory table, as the first-fit scan reads them. */
  function EntryFlags(ds: seq<DirEntry>): (s: seq<bool>)
    ensures |s| == |ds| && forall i :: 0 <= i < |ds| ==> s[i] == ds[i].valid
  {
    seq(|ds|, i requires 0 <= i < |ds| => ds[i].valid)
  }

  /**
   * The valid flags of the inode table. The source also keeps these in a
   * separate free-inode list; here they are derived from the inodes instead.
   */
  function InodeFlags(ins: seq<Inode>): (s: seq<bool>)
    ensures |s| == |ins| && forall i :: 0 <= i < |ins| ==> s[i] == ins[i].valid
  {
    seq(|ins|, i requires 0 <= i < |ins| => ins[i].valid)
  }

  /** Slot i is a valid entry for `name`. */
  predicate Binds(ds: seq<DirEntry>, i: int, name: string)
    requires 0 <= i < |ds|
  {
    ds[i].valid && ds[i].filename == name
  }

  /** Lowest valid directory slot at or after `from` bound to `name`, or -1. */
  function FindEntryFrom(ds: seq<DirEntry>, name: string, from: nat): (r: int)
    decreases |ds| - from
    ensures r == -1 || (from <= r < |ds| && Binds(ds, r, name))
    ensures r == -1 <==> forall i :: from <= i < |ds| ==> !Binds(ds, i, name)
    ensures r != -1 ==> forall i :: from <= i < r ==> !Binds(ds, i, name)
  {
    if from >= |ds| then -1
    else if Binds(ds, from, name) then from
    else FindEntryFrom(ds, name, from + 1)
  }

  /** Lookup by name: the lowest valid slot bound to `name`, or -1. Invalid slots never match. */
  function FindEntry(ds: seq<DirEntry>, name: string): int
  {
    FindEntryFrom(ds, name, 0)
  }

  /** Valid names are unique in the directory. */
  predicate UniqueNames(ds: seq<DirEntry>)
  {
    forall i, j :: 0 <= i < |ds| && 0 <= j < |ds| && i != j && ds[i].valid && ds[j].valid ==>
      ds[i].filename != ds[j].filename
  }

  /** When names are unique, a valid entry is found by its own name. */
  lemma FindEntryOfUnique(ds: seq<DirEntry>, d: int)
    requires UniqueNames(ds)
    requires 0 <= d < |ds| && ds[d].valid
    ensures FindEntry(ds, ds[d].filename) == d
  {
    var r := FindEntry(ds, ds[d].filename);
    assert Binds(ds, d, ds[d].filename);
    assert r != -1 && Binds(ds, r, ds[d].filename);
  }

  /** Overwriting slot d changes lookups of no name other than the old and new names at d. */
  lemma FindEntryUpdate(ds: seq<DirEntry>, d: int, e: DirEntry, name: string)
    requires 0 <= d < |ds|
    requires !Binds(ds, d, name) && !(e.valid && e.filename == name)
    ensures FindEntry(ds[d := e], name) == FindEntry(ds, name)
  {
    var r1, r2 := FindEntry(ds[d := e], name), FindEntry(ds, name);
    if r1 != r2 {
      if r1 == -1 {
        assert Binds(ds[d := e], r2, name);
      } else if r2 == -1 {
        assert Binds(ds, r1, name);
      } else if r1 < r2 {
        assert Binds(ds, r1, name);
      } else {
        assert Binds(ds[d := e], r2, name);
      }
    }
  }

  /** Every valid entry refers to an inode slot. */
  predicate EntriesInRange(ds: seq<DirEntry>, ins: seq<Inode>)
  {
    forall i :: 0 <= i < |ds| && ds[i].valid ==> 0 <= ds[i].inode < |ins|
  }

  /** What the listing shows for one file. */
  datatype Listing = Listing(size: int, timeStamp: int, filename: string)

  /** The listing: valid entries whose inode is not hidden, in table order. */
  function Visible(ds: seq<DirEntry>, ins: seq<Inode>): seq<Listing>
    requires EntriesInRange(ds, ins)
    decreases |ds|
  {
    if ds == [] then []
    else
      var e := ds[|ds| - 1];
      Visible(ds[..|ds| - 1], ins) +
        (if e.valid && !ins[e.inode].hidden then [Listing(ins[e.inode].size, ins[e.inode].timeStamp, e.filename)] else [])
  }

  /** Slot i is listed: valid and its inode not hidden. */
  predicate Shown(ds: seq<DirEntry>, ins: seq<Inode>, i: int)
    requires EntriesInRange(ds, ins)
    requires 0 <= i < |ds|
  {
    ds[i].valid && !ins[ds[i].inode].hidden
  }

  /** A name appears in the listing exactly when some valid, non-hidden entry carries it. */
  lemma VisibleIff(ds: seq<DirEntry>, ins: seq<Inode>, name: string)
    requires EntriesInRange(ds, ins)
    ensures (exists k :: 0 <= k < |Visible(ds, ins)| && Visible(ds, ins)[k].filename == name) <==>
            (exists i :: 0 <= i < |ds| && Shown(ds, ins, i) && ds[i].filename == name)
  {
    var v := Visible(ds, ins);
    if exists k :: 0 <= k < |v| && v[k].filename == name {
      var k :| 0 <= k < |v| && v[k].filename == name;
      VisibleSound(ds, ins, k);
    }
    if exists i :: 0 <= i < |ds| && Shown(ds, ins, i) && ds[i].filename == name {
      var i :| 0 <= i < |ds| && Shown(ds, ins, i) && ds[i].filename == name;
      VisibleComplete(ds, ins, i);
    }
  }

  /** Every valid, non-hidden entry is listed, with its inode's size and time stamp. */
  lemma {:induction false} VisibleComplete(ds: seq<DirEntry>, ins: seq<Inode>, i: int)
    requires EntriesInRange(ds, ins)
    requires 0 <= i < |ds| && Shown(ds, ins, i)
    ensures Listing(ins[ds[i].inode].size, ins[ds[i].inode].timeStamp, ds[i].filename) in Visible(ds, ins)
    decreases |ds|
  {
    var last := |ds| - 1;
    var front := ds[..last];
    var vf := Visible(front, ins);
    assert Visible(ds, ins)[..|vf|] == vf;
    if i < last {
      assert Shown(front, ins, i);
      VisibleComplete(front, ins, i);
      var k :| 0 <= k < |vf| && vf[k] == Listing(ins[ds[i].inode].size, ins[ds[i].inode].timeStamp, ds[i].filename);
      assert Visible(ds, ins)[k] == vf[k];
    } else {
      assert Visible(ds, ins)[|vf|] == Listing(ins[ds[i].inode].size, ins[ds[i].inode].timeStamp, ds[i].filename);
    }
  }

  /** Every listed file is one of the valid entries, with its inode's size. */
  lemma {:induction false} VisibleSound(ds: seq<DirEntry>, ins: seq<Inode>, k: int)
    requires EntriesInRange(ds, ins)
    requires 0 <= k < |Visible(ds, ins)|
    ensures exists i :: 0 <= i < |ds| && Shown(ds, ins, i) && ds[i].filename == Visible(ds, ins)[k].filename
                        && ins[ds[i].inode].size == Visible(ds, ins)[k].size
    decreases |ds|
  {
    var last := |ds| - 1;
    var front := ds[..last];
    var vf := Visible(front, ins);
    if k < |vf| {
      VisibleSound(front, ins, k);
      var i :| 0 <= i < |front| && Shown(front, ins, i) && front[i].filename == vf[k].filename
               && ins[front[i].inode].size == vf[k].size;
      assert Shown(ds, ins, i);
    } else {
      assert Shown(ds, ins, last);
    }
  }
}
