/** How many free blocks bmap and writei of operating-systems/xv6-OS/fs.c need: those missing in the range, and an indirect block where there is none. */
module FileCounts {
  import opened IntSets
  import opened FileBlocks
  import opened FileBytes

  ghost function FreeSet(roles: Roles): set<int> {
    set b | 0 <= b < |roles| && roles[b].Free?
  }

  ghost function FreeCount(roles: Roles): nat { |FreeSet(roles)| }

  lemma NoneLeft(roles: Roles)
    ensures NoneFree(roles) <==> FreeCount(roles) == 0
  {
    if !NoneFree(roles) {
      var b :| 0 <= b < |roles| && roles[b].Free?;
      assert b in FreeSet(roles);
    }
    if FreeCount(roles) != 0 {
      var b := Pick(FreeSet(roles));
    }
  }

  lemma OneTaken(roles: Roles, b: int, use: Role)
    requires IsRole(roles, b, Free) && !use.Free?
    ensures FreeCount(roles[b := use]) == FreeCount(roles) - 1
  {
    assert FreeSet(roles[b := use]) == FreeSet(roles) - {b};
  }

  /** Whether file i lacks an indirect block. */
  ghost function NoIndirect(ns: seq<Inode>, i: int): nat
    requires HasInode(ns, i)
  {
    if ns[i].addrs[NDIRECT] == 0 then 1 else 0
  }

  /** What bmap has to allocate for block n of file i. */
  ghost function Missing(ns: seq<Inode>, ds: seq<Block>, i: int, n: int): nat
    requires HasInode(ns, i) && 0 <= n < MAXFILE && DataOk(ds)
  {
    if Where(ns, ds, i, n) != 0 then 0 else if n < NDIRECT then 1 else 1 + NoIndirect(ns, i)
  }

  /** The blocks that are nowhere, of k from lo on. */
  ghost function Unmapped(ns: seq<Inode>, ds: seq<Block>, i: int, lo: int, k: nat): nat
    requires HasInode(ns, i) && 0 <= lo && lo + k <= MAXFILE && DataOk(ds)
  {
    if k == 0 then 0 else Unmapped(ns, ds, i, lo, k - 1) + if Where(ns, ds, i, lo + k - 1) == 0 then 1 else 0
  }

  /** What k blocks from lo on take, the indirect block included. */
  ghost function Lacking(ns: seq<Inode>, ds: seq<Block>, i: int, lo: int, k: nat): nat
    requires HasInode(ns, i) && 0 <= lo && lo + k <= MAXFILE && DataOk(ds)
  {
    Unmapped(ns, ds, i, lo, k) + if k > 0 && lo + k > NDIRECT then NoIndirect(ns, i) else 0
  }

  lemma {:induction false} LackingGrows(ns: seq<Inode>, ds: seq<Block>, i: int, lo: int, k: nat, all: nat)
    requires HasInode(ns, i) && 0 <= lo && k <= all && lo + all <= MAXFILE && DataOk(ds)
    ensures Lacking(ns, ds, i, lo, k) <= Lacking(ns, ds, i, lo, all)
    decreases all
  {
    if k < all {
      LackingGrows(ns, ds, i, lo, k, all - 1);
    }
  }

  /** Nothing but block n of file i has found a place, and the indirect block if it takes one. */
  ghost predicate OnlyMapped(ns0: seq<Inode>, ds0: seq<Block>, ns1: seq<Inode>, ds1: seq<Block>, i: int, n: int) {
    && HasInode(ns0, i) && HasInode(ns1, i) && DataOk(ds0) && DataOk(ds1)
    && (forall m {:trigger Where(ns1, ds1, i, m)} :: 0 <= m < MAXFILE && m != n ==> Where(ns1, ds1, i, m) == Where(ns0, ds0, i, m))
    && NoIndirect(ns1, i) == if n < NDIRECT then NoIndirect(ns0, i) else 0
  }

  /** k blocks from lo on have places; those behind them are as before. */
  ghost predicate Mapped(ns0: seq<Inode>, ds0: seq<Block>, ns1: seq<Inode>, ds1: seq<Block>, i: int, lo: int, k: nat) {
    && HasInode(ns0, i) && HasInode(ns1, i) && DataOk(ds0) && DataOk(ds1)
    && (forall m {:trigger Where(ns1, ds1, i, m)} :: lo + k <= m < MAXFILE && 0 <= m ==> Where(ns1, ds1, i, m) == Where(ns0, ds0, i, m))
    && NoIndirect(ns1, i) == if k > 0 && lo + k > NDIRECT then 0 else NoIndirect(ns0, i)
  }

  lemma MappedNothing(ns: seq<Inode>, ds: seq<Block>, i: int, lo: int)
    requires HasInode(ns, i) && DataOk(ds)
    ensures Mapped(ns, ds, ns, ds, i, lo, 0)
  {
  }

  lemma MappedNext(ns0: seq<Inode>, ds0: seq<Block>, ns1: seq<Inode>, ds1: seq<Block>, ns2: seq<Inode>, ds2: seq<Block>, i: int, lo: int, k: nat)
    requires 0 <= lo && Mapped(ns0, ds0, ns1, ds1, i, lo, k) && OnlyMapped(ns1, ds1, ns2, ds2, i, lo + k)
    ensures Mapped(ns0, ds0, ns2, ds2, i, lo, k + 1)
  {
    forall m {:trigger Where(ns2, ds2, i, m)} | lo + k + 1 <= m < MAXFILE && 0 <= m
      ensures Where(ns2, ds2, i, m) == Where(ns0, ds0, i, m)
    {
      assert Where(ns2, ds2, i, m) == Where(ns1, ds1, i, m);
    }
  }

  /** One block after the other takes together what the whole range took at first. */
  lemma LackingNext(ns0: seq<Inode>, ds0: seq<Block>, ns1: seq<Inode>, ds1: seq<Block>, i: int, lo: int, k: nat)
    requires 0 <= lo && lo + k < MAXFILE && Mapped(ns0, ds0, ns1, ds1, i, lo, k)
    ensures Lacking(ns0, ds0, i, lo, k + 1) == Lacking(ns0, ds0, i, lo, k) + Missing(ns1, ds1, i, lo + k)
  {
    assert Where(ns1, ds1, i, lo + k) == Where(ns0, ds0, i, lo + k);
  }

  /** The blocks that bytes off to end lie in. */
  function BlocksBetween(off: int, end: int): (k: nat)
    requires 0 <= off
  {
    if end <= off then 0 else Blocks(end) - off / BSIZE
  }

  /** A part within one block, at the start of the range or of a block, goes one block further. */
  lemma OneFurther(off: int, o: int, m: int)
    requires 0 <= off <= o && 0 < m && o % BSIZE + m <= BSIZE && (o == off || o % BSIZE == 0)
    ensures o / BSIZE == off / BSIZE + BlocksBetween(off, o) && BlocksBetween(off, o + m) == BlocksBetween(off, o) + 1
  {
  }
}
