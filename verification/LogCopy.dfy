/** The step that every write of operating-systems/xv6-OS/log.c takes: one block copied through the cache. */
module LogCopy {
  import opened BufferList
  import opened BufferCache
  import opened PinnedBuffers

  /** No buffer is held but those that others hold, and exactly the given blocks are pinned. */
  ghost predicate AtRest(bs: seq<Buf>, disk: seq<Block>, pinned: set<int>, lent: Lent) {
    QuietExcept(bs, lent.Keys) && LentOut(bs, disk, lent) && Pinned(bs) == pinned
  }

  /** Two buffers used and released again, the second written through for block n. */
  lemma RestAfterCopy(bs: seq<Buf>, disk: seq<Block>, lent: Lent, src: nat, s: Buf, dst: nat, d: Buf, n: int, x: Block)
    requires AtRest(bs, disk, Pinned(bs), lent) && src < |bs| && dst < |bs| && src != dst
    requires src !in lent && dst !in lent && NotLent(lent, n) && 0 <= n < |disk|
    requires s.refcnt == 0 && !s.locked && s.dirty == bs[src].dirty && (s.dirty ==> s.blockno == bs[src].blockno)
    requires d.refcnt == 0 && !d.locked && !d.dirty && (bs[dst].dirty ==> bs[dst].blockno == n)
    requires forall j {:trigger bs[j]} :: 0 <= j < |bs| && j != dst && bs[j].dirty ==> bs[j].blockno != n
    ensures AtRest(bs[src := s][dst := d], disk[n := x], Pinned(bs) - {n}, lent)
  {
    PinnedSame(bs, src, s);
    PinnedRemoved(bs[src := s], dst, d, n);
  }

  /** Buffer i is the one that pins block n, if any does. */
  ghost predicate Owns(bs: seq<Buf>, i: nat, n: int) {
    && i < |bs|
    && (bs[i].dirty ==> bs[i].blockno == n)
    && (forall j {:trigger bs[j]} :: 0 <= j < |bs| && j != i && bs[j].dirty ==> bs[j].blockno != n)
  }

  /** The buffer that bread returns owns its block. */
  lemma ReadOwns(bs: seq<Buf>, disk: seq<Block>, view: seq<Block>, i: nat, n: int)
    requires Coherent(bs, disk, view) && i < NBUF
    requires Caches(bs[i], n) || (!IsCached(bs, n) && Idle(bs[i]))
    ensures Owns(bs, i, n)
  {
    forall j {:trigger bs[j]} | 0 <= j < |bs| && j != i && bs[j].dirty
      ensures bs[j].blockno != n
    {
      assert BufOk(bs[j], disk, view);
      if Caches(bs[i], n) {
        assert bs[i].blockno != bs[j].blockno;
      } else {
        assert !Caches(bs[j], n);
      }
    }
  }

  lemma OwnedBefore(bs: seq<Buf>, i: nat, c: Buf, first: int, j: nat, second: int)
    requires Owns(bs, i, first) && first != second && i != j
    requires Owns(bs[i := c], j, second)
    ensures Owns(bs, j, second)
  {
    var cs := bs[i := c];
    forall k {:trigger bs[k]} | 0 <= k < |bs| && k != j && bs[k].dirty
      ensures bs[k].blockno != second
    {
      if k != i {
        assert cs[k] == bs[k];
      }
    }
    assert cs[j] == bs[j];
  }

  /** A buffer held for a block, showing the view; otherwise as it was. */
  ghost predicate HeldFor(was: Buf, now: Buf, n: int, x: Block) {
    && now.dev == 1 && now.blockno == n && now.valid && now.locked && now.data == x
    && now.refcnt == 1 && now.dirty == was.dirty
  }

  /** bread does not return a buffer that somebody else holds. */
  lemma ReadNotLent(bs: seq<Buf>, disk: seq<Block>, lent: Lent, i: nat, n: int)
    requires LentOut(bs, disk, lent) && NotLent(lent, n) && i < |bs|
    requires Caches(bs[i], n) || Idle(bs[i])
    ensures i !in lent
  {
  }

  lemma UnlockedIfNotLent(bs: seq<Buf>, disk: seq<Block>, lent: Lent, n: int)
    requires QuietExcept(bs, lent.Keys) && LentOut(bs, disk, lent) && NotLent(lent, n)
    ensures forall i :: 0 <= i < |bs| && Caches(bs[i], n) ==> !bs[i].locked && bs[i].refcnt == 0
  {
    forall i | 0 <= i < |bs| && Caches(bs[i], n)
      ensures i !in lent
    {
    }
  }

  /** Two breads of blocks that nobody else holds. False is the panic for want of a buffer. */
  method ReadTwo(cache: Cache, first: nat, second: nat, ghost lent: Lent) returns (ok: bool, i: nat, j: nat)
    requires cache.Valid() && AtRest(cache.bufs[..], cache.disk.blocks, Pinned(cache.bufs[..]), lent)
    requires first < |cache.disk.blocks| && second < |cache.disk.blocks| && first != second
    requires NotLent(lent, first) && NotLent(lent, second)
    modifies cache.bufs, cache.disk
    ensures cache.Valid() && cache.disk.blocks == old(cache.disk.blocks) && cache.disk.history == old(cache.disk.history)
    ensures ok ==> i < NBUF && j < NBUF && i != j && i !in lent && j !in lent
    ensures ok ==> cache.bufs[..] == old(cache.bufs[..])[i := cache.bufs[i]][j := cache.bufs[j]]
    ensures ok ==> HeldFor(old(cache.bufs[i]), cache.bufs[i], first, cache.view[first])
    ensures ok ==> HeldFor(old(cache.bufs[j]), cache.bufs[j], second, cache.view[second])
    ensures ok ==> Owns(old(cache.bufs[..]), i, first) && Owns(old(cache.bufs[..]), j, second)
    ensures !ok ==> |Pinned(old(cache.bufs[..]))| + |lent.Keys| + 1 >= NBUF
    ensures !ok && second in Pinned(old(cache.bufs[..])) ==> |Pinned(old(cache.bufs[..]))| + |lent.Keys| >= NBUF
    ensures |Pinned(old(cache.bufs[..]))| + |lent.Keys| >= NBUF && first !in Pinned(old(cache.bufs[..])) ==> !ok && cache.bufs[..] == old(cache.bufs[..])
  {
    ghost var bs, disk, view := cache.bufs[..], cache.disk.blocks, cache.view;
    if |Pinned(bs)| + |lent.Keys| >= NBUF && first !in Pinned(bs) {
      AllTaken(bs, disk, view, lent, first);
    }
    UnlockedIfNotLent(bs, disk, lent, first);
    UnlockedIfNotLent(bs, disk, lent, second);
    var a := cache.Bread(first);
    if a.None? {
      NoneIdle(bs, disk, view, lent.Keys);
      return false, 0, 0;
    }
    i := a.value;
    ReadOwns(bs, disk, view, i, first);
    ReadNotLent(bs, disk, lent, i, first);
    ok, j := ReadSecond(cache, bs, i, first, second, lent);
  }

  /** The second bread, with buffer i held for the first block. */
  method ReadSecond(cache: Cache, ghost bs: seq<Buf>, ghost i: nat, ghost first: nat, second: nat, ghost lent: Lent) returns (ok: bool, j: nat)
    requires cache.Valid() && |bs| == NBUF && first < |cache.disk.blocks| && QuietExcept(bs, lent.Keys) && LentOut(bs, cache.disk.blocks, lent)
    requires i < NBUF && i !in lent && cache.bufs[..] == bs[i := cache.bufs[i]] && HeldFor(bs[i], cache.bufs[i], first, cache.view[first])
    requires Owns(bs, i, first) && first != second < |cache.disk.blocks| && NotLent(lent, second)
    requires forall k :: 0 <= k < |bs| && Caches(bs[k], second) ==> !bs[k].locked && bs[k].refcnt == 0
    modifies cache.bufs, cache.disk
    ensures cache.Valid() && cache.disk.blocks == old(cache.disk.blocks) && cache.disk.history == old(cache.disk.history)
    ensures ok ==> j < NBUF && i != j && j !in lent && cache.bufs[..] == old(cache.bufs[..])[j := cache.bufs[j]]
    ensures ok ==> HeldFor(bs[j], cache.bufs[j], second, cache.view[second]) && Owns(bs, j, second)
    ensures !ok ==> |Pinned(bs)| + |lent.Keys| + 1 >= NBUF && (second in Pinned(bs) ==> |Pinned(bs)| + |lent.Keys| >= NBUF)
  {
    ghost var cs, disk, view := cache.bufs[..], cache.disk.blocks, cache.view;
    PinnedSame(bs, i, cs[i]);
    var b := cache.Bread(second);
    if b.None? {
      NoneIdle(cs, disk, view, lent.Keys + {i});
      PinnedIsCached(cs, disk, view, second);
      return false, 0;
    }
    j := b.value;
    ReadOwns(cs, disk, view, j, second);
    OwnedBefore(bs, i, cs[i], first, j, second);
    ReadNotLent(bs, disk, lent, j, second);
    ok := true;
  }

  lemma PinnedIsCached(bs: seq<Buf>, disk: seq<Block>, view: seq<Block>, n: int)
    requires Coherent(bs, disk, view) && !IsCached(bs, n)
    ensures n !in Pinned(bs)
  {
    forall j | 0 <= j < |bs| && bs[j].dirty
      ensures bs[j].blockno != n
    {
      assert BufOk(bs[j], disk, view) && !Caches(bs[j], n);
    }
  }

  /** A buffer at rest that owns its block is dirty unless the disk shows the block. */
  lemma OwnedShows(bs: seq<Buf>, disk: seq<Block>, view: seq<Block>, lent: Lent, i: nat, n: nat)
    requires Coherent(bs, disk, view) && AtRest(bs, disk, Pinned(bs), lent) && Owns(bs, i, n) && n < |disk|
    ensures bs[i].dirty || view[n] == disk[n]
    ensures bs[i].dirty ==> bs[i].blockno == n
    ensures forall j {:trigger bs[j]} :: 0 <= j < |bs| && j != i && bs[j].dirty ==> bs[j].blockno != n
  {
    if !bs[i].dirty {
      UnpinnedIsOnDisk(bs, disk, view, lent, n);
    }
  }

  /**
    The lines that write_log and install_trans share: read both blocks, copy
    one over the other, write it through and release both. In write_log the
    target is read first, in install_trans second. False is the cache's panic.
   */
  method CopyBlock(cache: Cache, from: nat, to: nat, toFirst: bool, ghost lent: Lent) returns (ok: bool)
    requires cache.Valid() && AtRest(cache.bufs[..], cache.disk.blocks, Pinned(cache.bufs[..]), lent)
    requires from < |cache.disk.blocks| && to < |cache.disk.blocks| && from != to
    requires NotLent(lent, from) && NotLent(lent, to)
    modifies cache`order, cache`view, cache.bufs, cache.prev, cache.next, cache.disk
    ensures cache.Valid()
    ensures ok ==> AtRest(cache.bufs[..], cache.disk.blocks, Pinned(old(cache.bufs[..])) - {to}, lent)
    ensures ok ==> cache.view == old(cache.view)[to := old(cache.view[from])]
    ensures ok ==> cache.disk.blocks == old(cache.disk.blocks)[to := old(cache.view[from])]
    ensures ok ==> cache.disk.history == old(cache.disk.history) + [cache.disk.blocks]
    ensures !ok ==> cache.disk.blocks == old(cache.disk.blocks) && cache.disk.history == old(cache.disk.history) && cache.view == old(cache.view)
    ensures !ok ==> |Pinned(old(cache.bufs[..]))| + |lent.Keys| + 1 >= NBUF
    ensures !ok && (if toFirst then from else to) in Pinned(old(cache.bufs[..])) ==> |Pinned(old(cache.bufs[..]))| + |lent.Keys| >= NBUF
    ensures |Pinned(old(cache.bufs[..]))| + |lent.Keys| >= NBUF && (if toFirst then to else from) !in Pinned(old(cache.bufs[..])) ==> !ok && cache.bufs[..] == old(cache.bufs[..])
  {
    ghost var bs, disk, view, x := cache.bufs[..], cache.disk.blocks, cache.view, cache.view[from];
    hide AtRest, Pinned, Coherent, NotLent, Owns, Cache.ListValid;
    var first, second := if toFirst then to else from, if toFirst then from else to;
    var i, j;
    ok, i, j := ReadTwo(cache, first, second, lent);
    if ok {
      var src, dst := if toFirst then j else i, if toFirst then i else j;
      ghost var cs := cache.bufs[..];
      OwnedShows(bs, disk, view, lent, src, from);
      OwnedShows(bs, disk, view, lent, dst, to);
      WriteThrough(cache, src, dst);
      RestAfterCopy(bs, disk, lent, src, Released(cs[src]), dst, Released(cs[dst].(data := cs[src].data, dirty := false)), to, x);
      assert cache.bufs[..] == bs[src := Released(cs[src])][dst := Released(cs[dst].(data := cs[src].data, dirty := false))];
    }
  }

  /** memmove, bwrite and the two brelse. */
  method WriteThrough(cache: Cache, src: nat, dst: nat)
    requires cache.Valid() && src < NBUF && dst < NBUF && src != dst
    requires cache.bufs[src].locked && cache.bufs[src].valid && cache.bufs[dst].locked && cache.bufs[dst].valid
    requires cache.bufs[src].dirty || cache.disk.blocks[cache.bufs[src].blockno] == cache.bufs[src].data
    modifies cache`order, cache`view, cache.bufs, cache.prev, cache.next, cache.disk
    ensures cache.Valid()
    ensures var s, d := old(cache.bufs[src]), old(cache.bufs[dst]);
      && cache.bufs[..] == old(cache.bufs[..])[src := Released(s)][dst := Released(d.(data := s.data, dirty := false))]
      && cache.view == old(cache.view)[d.blockno := s.data]
      && cache.disk.blocks == old(cache.disk.blocks)[d.blockno := s.data]
      && cache.disk.history == old(cache.disk.history) + [cache.disk.blocks]
  {
    cache.SetData(dst, cache.bufs[src].data);
    cache.Bwrite(dst);
    cache.Brelse(src);
    cache.Brelse(dst);
  }
}
