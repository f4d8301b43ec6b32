/**
  The block cache of operating-systems/xv6-OS/bio.c over the memory disk of
  memide.c, as one process sees it: a block whose sleep lock is held is held by
  this process. The cache refines an uncached store, `view`.
 */
module BufferCache {
  import opened BufferList
  import opened Wrappers

  const WORDS := 128

  /** A 512-byte block as words. */
  type Block = seq<int>

  datatype Buf = Buf(dev: int, blockno: int, refcnt: nat, valid: bool, dirty: bool, locked: bool, data: Block)

  const EMPTY_BUF := Buf(0, 0, 0, false, false, false, [])

  /** The disk. Every write is one step of its history: what a crash right after it would leave. */
  class Disk {
    var blocks: seq<Block>
    ghost var history: seq<seq<Block>>

    constructor (image: seq<Block>)
      ensures blocks == image && history == []
    {
      blocks, history := image, [];
    }

    method Write(b: nat, data: Block)
      requires b < |blocks|
      modifies this
      ensures blocks == old(blocks)[b := data] && history == old(history) + [blocks]
    {
      blocks := blocks[b := data];
      history := history + [blocks];
    }
  }

  // ----- What the cache keeps, on values

  ghost predicate Caches(b: Buf, n: int) { b.dev == 1 && b.blockno == n }

  ghost predicate BufOk(b: Buf, disk: seq<Block>, view: seq<Block>)
    requires |view| == |disk|
  {
    && (b.dev == 0 || (b.dev == 1 && 0 <= b.blockno < |disk|))
    && (b.valid ==> b.dev == 1 && b.data == view[b.blockno])
    && (b.dirty ==> b.valid)
    && (b.locked ==> b.refcnt > 0)
    && (b.refcnt > 0 ==> b.dev == 1)
  }

  /** Only a buffer that is dirty or in use may differ from the disk. */
  ghost predicate Unwritten(b: Buf, n: int) { Caches(b, n) && b.valid && (b.dirty || b.locked) }

  ghost predicate Covered(bs: seq<Buf>, n: int) {
    exists i :: 0 <= i < |bs| && Unwritten(bs[i], n)
  }

  /** At most one buffer for a block, every valid buffer shows the view, and nothing unwritten is lost. */
  ghost predicate Coherent(bs: seq<Buf>, disk: seq<Block>, view: seq<Block>) {
    && |bs| == NBUF && |view| == |disk|
    && (forall i {:trigger bs[i]} :: 0 <= i < NBUF ==> BufOk(bs[i], disk, view))
    && (forall i, j {:trigger bs[i], bs[j]} :: 0 <= i < j < NBUF && bs[i].dev == 1 && bs[j].dev == 1 ==> bs[i].blockno != bs[j].blockno)
    && (forall n {:trigger view[n]} {:trigger disk[n]} :: 0 <= n < |disk| && view[n] != disk[n] ==> Covered(bs, n))
  }

  /** Changing buffer i, and perhaps its block on the disk or in the view, for the same block. */
  lemma Changed(bs: seq<Buf>, disk: seq<Block>, view: seq<Block>, i: nat, b: Buf, disk': seq<Block>, view': seq<Block>)
    requires Coherent(bs, disk, view) && i < NBUF && bs[i].dev == 1 == b.dev && b.blockno == bs[i].blockno
    requires |disk'| == |disk| == |view'| && BufOk(b, disk', view')
    requires forall m :: 0 <= m < |disk| && m != b.blockno ==> view'[m] == view[m] && disk'[m] == disk[m]
    requires 0 <= b.blockno < |disk| && view'[b.blockno] != disk'[b.blockno] ==> Unwritten(b, b.blockno)
    ensures Coherent(bs[i := b], disk', view')
  {
    var cs := bs[i := b];
    forall j {:trigger cs[j]} | 0 <= j < NBUF
      ensures BufOk(cs[j], disk', view')
    {
      assert BufOk(bs[j], disk, view) && BufOk(bs[i], disk, view);
    }
    forall n {:trigger view'[n]} {:trigger disk'[n]} | 0 <= n < |disk'| && view'[n] != disk'[n]
      ensures Covered(cs, n)
    {
      if n == b.blockno {
        assert Unwritten(cs[i], n);
      } else {
        var j :| 0 <= j < |bs| && Unwritten(bs[j], n);
        assert Unwritten(cs[j], n);
      }
    }
  }

  /** Giving an idle clean buffer to a block that no buffer caches. */
  lemma Recycled(bs: seq<Buf>, disk: seq<Block>, view: seq<Block>, i: nat, b: Buf)
    requires Coherent(bs, disk, view) && i < NBUF && !bs[i].dirty && !bs[i].locked
    requires b.dev == 1 && 0 <= b.blockno < |disk| && BufOk(b, disk, view)
    requires forall j :: 0 <= j < NBUF ==> !Caches(bs[j], b.blockno)
    ensures Coherent(bs[i := b], disk, view) && view[b.blockno] == disk[b.blockno]
  {
    var cs := bs[i := b];
    forall n {:trigger view[n]} {:trigger disk[n]} | 0 <= n < |disk| && view[n] != disk[n]
      ensures Covered(cs, n) && n != b.blockno
    {
      var j :| 0 <= j < |bs| && Unwritten(bs[j], n);
      assert Unwritten(cs[j], n) && Caches(bs[j], n);
    }
  }

  // ----- The cache

  ghost predicate IsCached(bs: seq<Buf>, n: int) {
    exists i :: 0 <= i < |bs| && Caches(bs[i], n)
  }

  predicate Idle(b: Buf) { b.refcnt == 0 && !b.dirty }

  /** The least recently used of the idle buffers. */
  ghost predicate LastIdle(bs: seq<Buf>, order: seq<int>, b: int) {
    exists k :: LastIdleAt(bs, order, b, k)
  }

  ghost predicate LastIdleAt(bs: seq<Buf>, order: seq<int>, b: int, k: int) {
    && 0 <= k < |order| && order[k] == b && 0 <= b < |bs| && Idle(bs[b])
    && forall j :: k < j < |order| && 0 <= order[j] < |bs| ==> !Idle(bs[order[j]])
  }

  /** What bread leaves in the buffer: the block as an uncached store would show it, held. */
  ghost function Held(b: Buf, n: int, x: Block): Buf {
    if Caches(b, n) then b.(refcnt := b.refcnt + 1, valid := true, locked := true, data := x)
    else Buf(1, n, 1, true, false, true, x)
  }

  class Cache {
    const disk: Disk
    const bufs: array<Buf>
    const prev: array<int>
    const next: array<int>
    ghost var order: seq<int>
    ghost var view: seq<Block>

    ghost predicate Valid()
      reads this, disk, bufs, prev, next
    {
      && prev != next
      && ListValid()
      && Coherent(bufs[..], disk.blocks, view)
    }

    /** The list holds every buffer exactly once. */
    ghost predicate ListValid()
      reads this, prev, next
    {
      && prev.Length == next.Length == NBUF + 1
      && Linked(prev[..], next[..], order)
      && |order| == NBUF && (forall b :: 0 <= b < NBUF ==> b in order)
    }

    /** binit: nothing is cached, the buffers are linked in one by one. */
    constructor (disk: Disk)
      ensures Valid() && this.disk == disk && view == disk.blocks
      ensures fresh(bufs) && fresh(prev) && fresh(next)
      ensures forall i :: 0 <= i < NBUF ==> bufs[i] == EMPTY_BUF
    {
      this.disk := disk;
      bufs := new Buf[NBUF](_ => EMPTY_BUF);
      prev := new int[NBUF + 1](_ => HEAD);
      next := new int[NBUF + 1](_ => HEAD);
      order := [];
      view := disk.blocks;
      new;
      assert forall k {:trigger LinkAt(prev[..], next[..], order, k)} :: -1 <= k < |order| ==> LinkAt(prev[..], next[..], order, k);
      for b := 0 to NBUF
        invariant prev != next && prev.Length == next.Length == NBUF + 1
        invariant fresh(bufs) && fresh(prev) && fresh(next) && view == disk.blocks
        invariant forall i :: 0 <= i < NBUF ==> bufs[i] == EMPTY_BUF
        invariant Linked(prev[..], next[..], order) && |order| == b
        invariant forall k :: k in order <==> 0 <= k < b
      {
        LinkFront(b);
      }
    }

    /** Links b in right after the head. */
    method LinkFront(b: int)
      requires prev != next && prev.Length == next.Length == NBUF + 1
      requires Linked(prev[..], next[..], order) && 0 <= b < NBUF && b !in order
      modifies this`order, prev, next
      ensures order == [b] + old(order) && Linked(prev[..], next[..], order)
    {
      ghost var p, n := prev[..], next[..];
      PushFront(p, n, order, b);
      next[b] := next[HEAD];
      prev[b] := HEAD;
      prev[next[HEAD]] := b;
      next[HEAD] := b;
      order := [b] + order;
      assert prev[..] == p[b := HEAD][n[HEAD] := b] && next[..] == n[b := n[HEAD]][HEAD := b];
    }

    /** Moves b to the front of the list. */
    method MoveToFront(b: int)
      requires prev != next && ListValid() && 0 <= b < NBUF
      modifies this`order, prev, next
      ensures ListValid() && Fronted(old(order), order, b)
    {
      assert b in order;
      ghost var k :| 0 <= k < |order| && order[k] == b;
      ghost var p, n, o := prev[..], next[..], order;
      Unlink(p, n, order, k);
      PositionsDiffer(p, n, order, k);
      prev[next[b]] := prev[b];
      next[prev[b]] := next[b];
      order := Removed(order, k);
      assert prev[..] == p[n[b] := p[b]] && next[..] == n[p[b] := n[b]];
      RemovedElements(o, k);
      LinkFront(b);
      assert order == [b] + o[..k] + o[k + 1..];
      assert FrontedFrom(o, order, b, k);
    }

    /** The first loop of bget: from the most recently used buffer. */
    method FindCached(blockno: int) returns (r: Option<nat>)
      requires Valid()
      ensures r.None? <==> !IsCached(bufs[..], blockno)
      ensures r.Some? ==> r.value < NBUF && Caches(bufs[r.value], blockno)
    {
      var b := next[HEAD];
      ghost var k := 0;
      assert LinkAt(prev[..], next[..], order, -1);
      while b != HEAD
        invariant 0 <= k <= |order| && b == At(order, k)
        invariant forall j :: 0 <= j < k ==> !Caches(bufs[order[j]], blockno)
        decreases |order| - k
      {
        if bufs[b].dev == 1 && bufs[b].blockno == blockno {
          assert Caches(bufs[..][b], blockno);
          return Some(b);
        }
        assert LinkAt(prev[..], next[..], order, k);
        b := next[b];
        k := k + 1;
      }
      EveryBuffer(bufs[..], order, x => Caches(x, blockno));
      r := None;
    }

    /** The second loop of bget: from the least recently used buffer. */
    method FindIdle() returns (r: Option<nat>)
      requires Valid()
      ensures r.None? <==> forall i :: 0 <= i < NBUF ==> !Idle(bufs[i])
      ensures r.Some? ==> r.value < NBUF && Idle(bufs[r.value]) && LastIdle(bufs[..], order, r.value)
    {
      var b := prev[HEAD];
      ghost var k := |order| - 1;
      assert LinkAt(prev[..], next[..], order, k);
      while b != HEAD
        invariant -1 <= k < |order| && b == At(order, k)
        invariant forall j :: k < j < |order| ==> !Idle(bufs[order[j]])
        decreases k
      {
        if bufs[b].refcnt == 0 && !bufs[b].dirty {
          assert LastIdleAt(bufs[..], order, b, k);
          return Some(b);
        }
        assert LinkAt(prev[..], next[..], order, k - 1);
        b := prev[b];
        k := k - 1;
      }
      EveryBuffer(bufs[..], order, x => Idle(x));
      r := None;
    }

    /** None is the panic "bget: no buffers". The caller must not hold the block already. */
    method Bget(blockno: nat) returns (r: Option<nat>)
      requires Valid() && blockno < |disk.blocks|
      requires forall i :: 0 <= i < NBUF && Caches(bufs[i], blockno) ==> !bufs[i].locked
      modifies bufs
      ensures Valid()
      ensures r.None? <==> !IsCached(old(bufs[..]), blockno) && forall i :: 0 <= i < NBUF ==> !Idle(old(bufs[i]))
      ensures r.None? ==> bufs[..] == old(bufs[..])
      ensures r.Some? ==> r.value < NBUF && (Caches(old(bufs[r.value]), blockno) || (!IsCached(old(bufs[..]), blockno) && Idle(old(bufs[r.value]))))
      ensures r.Some? && !IsCached(old(bufs[..]), blockno) ==> LastIdle(old(bufs[..]), order, r.value)
      ensures r.Some? ==> bufs[..] == old(bufs[..])[r.value := Got(old(bufs[r.value]), blockno)]
    {
      ghost var bs := bufs[..];
      r := FindCached(blockno);
      if r.Some? {
        var i := r.value;
        assert BufOk(bs[i], disk.blocks, view);
        Changed(bs, disk.blocks, view, i, Got(bs[i], blockno), disk.blocks, view);
        bufs[i] := bufs[i].(refcnt := bufs[i].refcnt + 1, locked := true);
        assert bufs[..] == bs[i := Got(bs[i], blockno)];
        return;
      }
      r := FindIdle();
      if r.Some? {
        var i := r.value;
        assert BufOk(bs[i], disk.blocks, view);
        assert forall j :: 0 <= j < NBUF ==> !Caches(bs[j], blockno);
        Recycled(bs, disk.blocks, view, i, Got(bs[i], blockno));
        bufs[i] := Buf(1, blockno, 1, false, false, true, bufs[i].data);
        assert bufs[..] == bs[i := Got(bs[i], blockno)];
      }
    }

    /** Syncs a held buffer: writes it when it is dirty, else reads it. Anything else is a panic. */
    method Iderw(i: nat)
      requires Valid() && i < NBUF && bufs[i].locked && bufs[i].dev == 1
      requires bufs[i].valid ==> bufs[i].dirty
      requires !bufs[i].valid ==> view[bufs[i].blockno] == disk.blocks[bufs[i].blockno]
      modifies bufs, disk
      ensures Valid()
      ensures var b := old(bufs[i]);
        if b.dirty then
          && bufs[..] == old(bufs[..])[i := b.(dirty := false)]
          && disk.blocks == old(disk.blocks)[b.blockno := b.data] && disk.history == old(disk.history) + [disk.blocks]
        else
          && bufs[..] == old(bufs[..])[i := b.(valid := true, data := view[b.blockno])]
          && disk.blocks == old(disk.blocks) && disk.history == old(disk.history)
    {
      ghost var bs, was := bufs[..], disk.blocks;
      var b := bufs[i];
      assert BufOk(bs[i], was, view);
      if b.dirty {
        Changed(bs, was, view, i, b.(dirty := false), was[b.blockno := b.data], view);
        bufs[i] := b.(dirty := false);
        disk.Write(b.blockno, b.data);
        assert bufs[..] == bs[i := b.(dirty := false)];
      } else {
        Changed(bs, was, view, i, b.(valid := true, data := was[b.blockno]), was, view);
        bufs[i] := b.(valid := true, data := disk.blocks[b.blockno]);
        assert bufs[..] == bs[i := b.(valid := true, data := was[b.blockno])];
      }
    }

    /**
      A held buffer showing the block exactly as an uncached store would.
      None is the panic: nothing caches the block and no buffer is idle.
     */
    method Bread(blockno: nat) returns (r: Option<nat>)
      requires Valid() && blockno < |disk.blocks|
      requires forall i :: 0 <= i < NBUF && Caches(bufs[i], blockno) ==> !bufs[i].locked
      modifies bufs, disk
      ensures Valid() && disk.blocks == old(disk.blocks) && disk.history == old(disk.history)
      ensures r.None? <==> !IsCached(old(bufs[..]), blockno) && forall i :: 0 <= i < NBUF ==> !Idle(old(bufs[i]))
      ensures r.None? ==> bufs[..] == old(bufs[..])
      ensures r.Some? ==> r.value < NBUF && (Caches(old(bufs[r.value]), blockno) || (!IsCached(old(bufs[..]), blockno) && Idle(old(bufs[r.value]))))
      ensures r.Some? && !IsCached(old(bufs[..]), blockno) ==> LastIdle(old(bufs[..]), order, r.value)
      ensures r.Some? ==> bufs[..] == old(bufs[..])[r.value := Held(old(bufs[r.value]), blockno, view[blockno])]
    {
      ghost var bs := bufs[..];
      r := Bget(blockno);
      if r.Some? {
        var i := r.value;
        assert BufOk(bs[i], disk.blocks, view) && BufOk(bufs[..][i], disk.blocks, view);
        if !bufs[i].valid {
          InvalidIsOnDisk(bufs[..], disk.blocks, view, i);
          Iderw(i);
        }
      }
    }

    /** Writes a held buffer to the disk. */
    method Bwrite(i: nat)
      requires Valid() && i < NBUF && bufs[i].locked && bufs[i].valid
      modifies bufs, disk
      ensures Valid()
      ensures var b := old(bufs[i]);
        && bufs[..] == old(bufs[..])[i := b.(dirty := false)]
        && disk.blocks == old(disk.blocks)[b.blockno := b.data] && disk.history == old(disk.history) + [disk.blocks]
    {
      MarkDirty(i);
      Iderw(i);
    }

    /** Releases a held buffer. Its holder must have written it or marked it dirty if it changed it. */
    method Brelse(i: nat)
      requires Valid() && i < NBUF && bufs[i].locked && bufs[i].valid
      requires bufs[i].dirty || disk.blocks[bufs[i].blockno] == bufs[i].data
      modifies bufs, this`order, prev, next
      ensures Valid()
      ensures bufs[..] == old(bufs[..])[i := Released(old(bufs[i]))]
      ensures if old(bufs[i]).refcnt == 1 then Fronted(old(order), order, i) else order == old(order)
    {
      ghost var bs := bufs[..];
      assert BufOk(bs[i], disk.blocks, view);
      Changed(bs, disk.blocks, view, i, Released(bs[i]), disk.blocks, view);
      bufs[i] := bufs[i].(locked := false, refcnt := bufs[i].refcnt - 1);
      assert bufs[..] == bs[i := Released(bs[i])];
      if bufs[i].refcnt == 0 {
        MoveToFront(i);
      }
    }

    // What a holder does to a buffer itself: change its bytes, or flag the change.

    method SetData(i: nat, data: Block)
      requires Valid() && i < NBUF && bufs[i].locked && bufs[i].valid
      modifies bufs, this`view
      ensures Valid()
      ensures bufs[..] == old(bufs[..])[i := old(bufs[i]).(data := data)]
      ensures view == old(view)[old(bufs[i]).blockno := data]
    {
      ghost var bs := bufs[..];
      assert BufOk(bs[i], disk.blocks, view);
      ghost var n := bs[i].blockno;
      Changed(bs, disk.blocks, view, i, bs[i].(data := data), disk.blocks, view[n := data]);
      bufs[i] := bufs[i].(data := data);
      view := view[n := data];
      assert bufs[..] == bs[i := bs[i].(data := data)];
    }

    method MarkDirty(i: nat)
      requires Valid() && i < NBUF && bufs[i].locked && bufs[i].valid
      modifies bufs
      ensures Valid()
      ensures bufs[..] == old(bufs[..])[i := old(bufs[i]).(dirty := true)]
    {
      ghost var bs := bufs[..];
      assert BufOk(bs[i], disk.blocks, view);
      Changed(bs, disk.blocks, view, i, bs[i].(dirty := true), disk.blocks, view);
      bufs[i] := bufs[i].(dirty := true);
      assert bufs[..] == bs[i := bs[i].(dirty := true)];
    }
  }

  ghost function Released(b: Buf): Buf
    requires b.refcnt > 0
  {
    b.(locked := false, refcnt := b.refcnt - 1)
  }

  /** A buffer that has not been read yet stands for no unwritten change. */
  lemma InvalidIsOnDisk(bs: seq<Buf>, disk: seq<Block>, view: seq<Block>, i: nat)
    requires Coherent(bs, disk, view) && i < NBUF && bs[i].dev == 1 && !bs[i].valid
    ensures 0 <= bs[i].blockno < |disk| && view[bs[i].blockno] == disk[bs[i].blockno]
  {
    assert BufOk(bs[i], disk, view);
    assert forall j :: 0 <= j < |bs| ==> !Unwritten(bs[j], bs[i].blockno);
    assert !Covered(bs, bs[i].blockno);
  }

  /** What bget leaves in the buffer it returns. */
  ghost function Got(b: Buf, n: int): Buf {
    if Caches(b, n) then b.(refcnt := b.refcnt + 1, locked := true) else Buf(1, n, 1, false, false, true, b.data)
  }

  /** One more user of a cached block, the first of another; a release takes one away. */
  lemma UsersCounted(b: Buf, n: int, x: Block)
    ensures Caches(b, n) ==> Held(b, n, x).refcnt == Got(b, n).refcnt == b.refcnt + 1 && Held(b, n, x).dirty == Got(b, n).dirty == b.dirty
    ensures !Caches(b, n) ==> Held(b, n, x).refcnt == Got(b, n).refcnt == 1 && !Held(b, n, x).dirty && !Got(b, n).dirty && !Got(b, n).valid
    ensures Caches(Held(b, n, x), n) && Caches(Got(b, n), n) && Held(b, n, x).locked && Got(b, n).locked
    ensures Held(b, n, x).valid && Held(b, n, x).data == x && Got(b, n).data == b.data
    ensures Released(Held(b, n, x)).refcnt == if Caches(b, n) then b.refcnt else 0
    ensures Released(Held(b, n, x)) == Held(b, n, x).(locked := false, refcnt := Held(b, n, x).refcnt - 1)
  {
  }

  lemma EveryBuffer(bs: seq<Buf>, order: seq<int>, p: Buf -> bool)
    requires |bs| == NBUF && Members(order) && forall b :: 0 <= b < NBUF ==> b in order
    requires forall j :: 0 <= j < |order| ==> !p(bs[order[j]])
    ensures forall i :: 0 <= i < NBUF ==> !p(bs[i])
  {
    forall i | 0 <= i < NBUF
      ensures !p(bs[i])
    {
      assert i in order;
    }
  }

  lemma PositionsDiffer(prev: seq<int>, next: seq<int>, order: seq<int>, k: int)
    requires Sized(prev, next) && Linked(prev, next, order) && 0 <= k < |order|
    ensures next[order[k]] != order[k] && prev[order[k]] != order[k]
  {
    assert LinkAt(prev, next, order, k) && LinkAt(prev, next, order, k - 1);
  }

  lemma RemovedElements(order: seq<int>, k: int)
    requires Members(order) && 0 <= k < |order|
    ensures order[k] !in Removed(order, k) && forall b :: b in order && b != order[k] ==> b in Removed(order, k)
  {
    forall b | b in order && b != order[k]
      ensures b in Removed(order, k)
    {
      var j :| 0 <= j < |order| && order[j] == b;
      assert Removed(order, k)[if j < k then j else j - 1] == b;
    }
  }
}
