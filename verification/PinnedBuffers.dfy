/** Which buffers are pinned by the log, and when an idle buffer is left (operating-systems/xv6-OS/bio.c). */
module PinnedBuffers {
  import opened BufferList
  import opened BufferCache
  import opened IntSets

  /** The blocks whose buffers are dirty. */
  ghost function Pinned(bs: seq<Buf>): set<int> {
    set i | 0 <= i < |bs| && bs[i].dirty :: bs[i].blockno
  }

  /** No buffer is in use, except those in h. */
  ghost predicate QuietExcept(bs: seq<Buf>, h: set<int>) {
    forall i {:trigger bs[i]} :: 0 <= i < |bs| && i !in h ==> bs[i].refcnt == 0 && !bs[i].locked
  }

  /** The buffers that other processes hold, as they are. */
  type Lent = map<int, Buf>

  /** They are in use for reading: nothing in them is to be written. */
  ghost predicate LentOut(bs: seq<Buf>, disk: seq<Block>, lent: Lent) {
    forall i {:trigger i in lent} :: i in lent ==>
      && 0 <= i < |bs| && bs[i] == lent[i] && lent[i].refcnt > 0 && !lent[i].dirty
      && (lent[i].valid && 0 <= lent[i].blockno < |disk| ==> lent[i].data == disk[lent[i].blockno])
  }

  ghost predicate NotLent(lent: Lent, n: int) {
    forall i :: i in lent ==> lent[i].blockno != n
  }

  ghost function DirtyNumbers(bs: seq<Buf>, k: nat): (s: set<int>)
    requires k <= |bs|
    ensures forall i :: i in s <==> 0 <= i < k && bs[i].dirty
  {
    if k == 0 then {} else DirtyNumbers(bs, k - 1) + if bs[k - 1].dirty then {k - 1} else {}
  }

  ghost function PinnedUpTo(bs: seq<Buf>, k: nat): (s: set<int>)
    requires k <= |bs|
    ensures forall n :: n in s <==> exists i :: 0 <= i < k && bs[i].dirty && bs[i].blockno == n
  {
    if k == 0 then {} else
      var s := PinnedUpTo(bs, k - 1);
      assert forall n :: n in s ==> exists i :: 0 <= i < k && bs[i].dirty && bs[i].blockno == n;
      if bs[k - 1].dirty then s + {bs[k - 1].blockno} else s
  }

  ghost predicate DistinctDirty(bs: seq<Buf>) {
    forall i, j {:trigger bs[i], bs[j]} :: 0 <= i < j < |bs| && bs[i].dirty && bs[j].dirty ==> bs[i].blockno != bs[j].blockno
  }

  lemma CoherentIsDistinct(bs: seq<Buf>, disk: seq<Block>, view: seq<Block>)
    requires Coherent(bs, disk, view)
    ensures DistinctDirty(bs)
  {
    forall i, j {:trigger bs[i], bs[j]} | 0 <= i < j < |bs| && bs[i].dirty && bs[j].dirty
      ensures bs[i].blockno != bs[j].blockno
    {
      assert BufOk(bs[i], disk, view) && BufOk(bs[j], disk, view);
    }
  }

  lemma OwnBlock(bs: seq<Buf>, k: nat)
    requires k < |bs| && DistinctDirty(bs) && bs[k].dirty
    ensures bs[k].blockno !in PinnedUpTo(bs, k) && k !in DirtyNumbers(bs, k)
  {
    forall i | 0 <= i < k && bs[i].dirty
      ensures bs[i].blockno != bs[k].blockno
    {
    }
  }

  lemma PinnedStep(bs: seq<Buf>, k: nat)
    requires 0 < k <= |bs| && DistinctDirty(bs)
    ensures bs[k - 1].dirty ==> |PinnedUpTo(bs, k)| == |PinnedUpTo(bs, k - 1)| + 1 && |DirtyNumbers(bs, k)| == |DirtyNumbers(bs, k - 1)| + 1
    ensures !bs[k - 1].dirty ==> PinnedUpTo(bs, k) == PinnedUpTo(bs, k - 1) && DirtyNumbers(bs, k) == DirtyNumbers(bs, k - 1)
  {
    if bs[k - 1].dirty {
      OwnBlock(bs, k - 1);
    }
  }

  lemma NothingPinned(bs: seq<Buf>)
    ensures PinnedUpTo(bs, 0) == {} && DirtyNumbers(bs, 0) == {}
  {
  }

  /** Every dirty buffer pins a block of its own. */
  lemma {:induction false} PinnedCount(bs: seq<Buf>, k: nat)
    requires k <= |bs| && DistinctDirty(bs)
    ensures |PinnedUpTo(bs, k)| == |DirtyNumbers(bs, k)|
  {
    hide *;
    if k != 0 {
      PinnedCount(bs, k - 1);
      PinnedStep(bs, k);
    } else {
      NothingPinned(bs);
    }
  }

  lemma PinnedIsPinnedUpTo(bs: seq<Buf>)
    ensures Pinned(bs) == PinnedUpTo(bs, |bs|)
  {
  }

  /** If no buffer is idle, all are pinned or in use. */
  lemma NoneIdle(bs: seq<Buf>, disk: seq<Block>, view: seq<Block>, h: set<int>)
    requires Coherent(bs, disk, view) && QuietExcept(bs, h)
    requires forall i :: 0 <= i < NBUF ==> !Idle(bs[i])
    ensures NBUF <= |Pinned(bs)| + |h|
  {
    CoherentIsDistinct(bs, disk, view);
    PinnedCount(bs, NBUF);
    PinnedIsPinnedUpTo(bs);
    var d := DirtyNumbers(bs, NBUF);
    var all := d + h;
    assert forall i :: 0 <= i < NBUF ==> i in all;
    AtLeastRange(all, 0, NBUF);
    assert |d + h| <= |d| + |h|;
  }

  lemma DirtyOrLent(bs: seq<Buf>, disk: seq<Block>, lent: Lent, i: nat)
    requires DistinctDirty(bs) && LentOut(bs, disk, lent) && i < |bs| == NBUF && |Pinned(bs)| + |lent.Keys| >= NBUF
    ensures bs[i].dirty || i in lent
  {
    PinnedCount(bs, NBUF);
    PinnedIsPinnedUpTo(bs);
    var d := DirtyNumbers(bs, NBUF);
    hide DistinctDirty, Pinned, PinnedUpTo;
    forall k | k in d
      ensures k !in lent.Keys
    {
      assert bs[k].dirty;
    }
    assert |d + lent.Keys| == |d| + |lent.Keys|;
    AllInRange(d + lent.Keys, 0, NBUF);
  }

  /** When every buffer is pinned or lent out, none is idle and no other block is cached. */
  lemma AllTaken(bs: seq<Buf>, disk: seq<Block>, view: seq<Block>, lent: Lent, n: int)
    requires Coherent(bs, disk, view) && LentOut(bs, disk, lent) && |Pinned(bs)| + |lent.Keys| >= NBUF
    requires n !in Pinned(bs) && NotLent(lent, n)
    ensures !IsCached(bs, n) && forall i :: 0 <= i < NBUF ==> !Idle(bs[i])
  {
    CoherentIsDistinct(bs, disk, view);
    forall i | 0 <= i < NBUF
      ensures !Idle(bs[i]) && !Caches(bs[i], n)
    {
      DirtyOrLent(bs, disk, lent, i);
      assert i in lent ==> bs[i] == lent[i];
    }
  }

  // ----- How one buffer's change moves the pinned set

  lemma PinnedSame(bs: seq<Buf>, i: nat, b: Buf)
    requires i < |bs| && bs[i].dirty == b.dirty && (b.dirty ==> b.blockno == bs[i].blockno)
    ensures Pinned(bs[i := b]) == Pinned(bs)
  {
    var cs := bs[i := b];
    forall n | n in Pinned(bs)
      ensures n in Pinned(cs)
    {
      var j :| 0 <= j < |bs| && bs[j].dirty && bs[j].blockno == n;
      assert cs[j].dirty && cs[j].blockno == n;
    }
    forall n | n in Pinned(cs)
      ensures n in Pinned(bs)
    {
      var j :| 0 <= j < |cs| && cs[j].dirty && cs[j].blockno == n;
      assert bs[j].dirty && bs[j].blockno == n;
    }
  }

  lemma PinnedAdded(bs: seq<Buf>, i: nat, b: Buf)
    requires i < |bs| && b.dirty && b.blockno == bs[i].blockno
    ensures Pinned(bs[i := b]) == Pinned(bs) + {b.blockno}
  {
    var cs := bs[i := b];
    assert cs[i] == b;
    forall n | n in Pinned(bs)
      ensures n in Pinned(cs)
    {
      var j :| 0 <= j < |bs| && bs[j].dirty && bs[j].blockno == n;
      assert cs[j].dirty && cs[j].blockno == n;
    }
    forall n | n in Pinned(cs) && n != b.blockno
      ensures n in Pinned(bs)
    {
      var j :| 0 <= j < |cs| && cs[j].dirty && cs[j].blockno == n;
      assert bs[j].dirty && bs[j].blockno == n;
    }
  }

  /** Buffer i gives up block n, which no other buffer pins. */
  lemma PinnedRemoved(bs: seq<Buf>, i: nat, b: Buf, n: int)
    requires i < |bs| && !b.dirty && (bs[i].dirty ==> bs[i].blockno == n)
    requires forall j {:trigger bs[j]} :: 0 <= j < |bs| && j != i && bs[j].dirty ==> bs[j].blockno != n
    ensures Pinned(bs[i := b]) == Pinned(bs) - {n}
  {
    var cs := bs[i := b];
    forall m | m in Pinned(bs) && m != n
      ensures m in Pinned(cs)
    {
      var j :| 0 <= j < |bs| && bs[j].dirty && bs[j].blockno == m;
      assert cs[j].dirty && cs[j].blockno == m;
    }
    forall m | m in Pinned(cs)
      ensures m in Pinned(bs) && m != n
    {
      var j :| 0 <= j < |cs| && cs[j].dirty && cs[j].blockno == m;
      assert bs[j].dirty && bs[j].blockno == m;
    }
  }

  /** While others only read, an unpinned block is on the disk as the view shows it. */
  lemma UnpinnedIsOnDisk(bs: seq<Buf>, disk: seq<Block>, view: seq<Block>, lent: Lent, n: nat)
    requires Coherent(bs, disk, view) && QuietExcept(bs, lent.Keys) && LentOut(bs, disk, lent)
    requires n < |disk| && n !in Pinned(bs)
    ensures view[n] == disk[n]
  {
    forall i | 0 <= i < |bs| && Unwritten(bs[i], n)
      ensures view[n] == disk[n]
    {
      assert BufOk(bs[i], disk, view);
      assert i in lent && bs[i] == lent[i];
    }
  }

  /** Nobody else holds a pinned block: its buffer is the dirty one. */
  lemma PinnedNotLent(bs: seq<Buf>, disk: seq<Block>, view: seq<Block>, lent: Lent, n: int)
    requires Coherent(bs, disk, view) && LentOut(bs, disk, lent) && n in Pinned(bs)
    ensures NotLent(lent, n)
  {
    var j :| 0 <= j < |bs| && bs[j].dirty && bs[j].blockno == n;
    forall i | i in lent
      ensures lent[i].blockno != n
    {
      assert bs[i] == lent[i] && BufOk(bs[i], disk, view) && BufOk(bs[j], disk, view);
    }
  }
}
