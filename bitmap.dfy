/**
 * Allocation bitmaps: one flag per slot, true when the slot is in use.
 * The free-block list, the inode valid flags and the directory valid flags
 * are all scanned first-fit by the same rule, defined once here.
 */
module Bitmap {

  /** Number of free (false) slots. */
  function CountFree(s: seq<bool>): (n: nat)
    ensures n <= |s|
    ensures n == 0 <==> forall i :: 0 <= i < |s| ==> s[i]
  {
    if s == [] then 0
    else CountFree(s[..|s| - 1]) + (if s[|s| - 1] then 0 else 1)
  }

  /** Lowest free slot at or after `from`, or -1 when every such slot is in use. */
  function FirstFree(s: seq<bool>, from: nat): (r: int)
    decreases |s| - from
    ensures r == -1 || (from <= r < |s| && !s[r])
    ensures r == -1 <==> forall i :: from <= i < |s| ==> s[i]
    ensures r != -1 ==> forall i :: from <= i < r ==> s[i]
  {
    if from >= |s| then -1
    else if !s[from] then from
    else FirstFree(s, from + 1)
  }

  /** Marking a free slot used removes exactly one free slot. */
  lemma {:induction false} CountFreeMark(s: seq<bool>, x: int)
    requires 0 <= x < |s| && !s[x]
    ensures CountFree(s[x := true]) == CountFree(s) - 1
    decreases |s|
  {
    var t := s[x := true];
    var last := |s| - 1;
    assert t[..last] == if x == last then s[..last] else s[..last][x := true];
    if x < last {
      CountFreeMark(s[..last], x);
    }
  }

  /** Releasing a used slot adds exactly one free slot. */
  lemma CountFreeRelease(s: seq<bool>, x: int)
    requires 0 <= x < |s| && s[x]
    ensures CountFree(s[x := false]) == CountFree(s) + 1
  {
    var t := s[x := false];
    CountFreeMark(t, x);
    assert t[x := true] == s;
  }

  /** Slots that are always in use (a prefix of `reserved` slots) never count as free. */
  lemma {:induction false} CountFreeSkipsReserved(s: seq<bool>, reserved: nat)
    requires reserved <= |s|
    requires forall i :: 0 <= i < reserved ==> s[i]
    ensures CountFree(s) == CountFree(s[reserved..])
    ensures CountFree(s) <= |s| - reserved
    decreases |s|
  {
    if |s| == reserved {
      assert s[reserved..] == [];
    } else {
      var last := |s| - 1;
      CountFreeSkipsReserved(s[..last], reserved);
      assert s[..last][reserved..] == s[reserved..][..|s[reserved..]| - 1];
    }
  }

  /**
   * When some slot is free and every slot before `from` is in use, the
   * first-fit scan from `from` finds one.
   */
  lemma FirstFreeFinds(s: seq<bool>, from: nat)
    requires CountFree(s) > 0
    requires forall i :: 0 <= i < from && i < |s| ==> s[i]
    ensures FirstFree(s, from) != -1
  {
  }

  /** A bitmap with nothing in use is all free. */
  lemma {:induction false} CountAllFree(s: seq<bool>)
    requires forall i :: 0 <= i < |s| ==> !s[i]
    ensures CountFree(s) == |s|
    decreases |s|
  {
    if s != [] {
      CountAllFree(s[..|s| - 1]);
    }
  }
}
