/** The write-ahead log of operating-systems/xv6-OS/log.c, over the block cache. */
module Log {
  import opened BufferList
  import opened BufferCache
  import opened PinnedBuffers
  import opened CrashModel
  import opened LogSteps
  import opened LogCopy
  import opened IntSets

  ghost function SetOf(bs: seq<int>): set<int> {
    set b | b in bs
  }

  lemma {:induction false} SetOfDistinct(bs: seq<int>)
    requires Distinct(bs)
    ensures |SetOf(bs)| == |bs|
  {
    if bs != [] {
      var last := |bs| - 1;
      SetOfDistinct(bs[..last]);
      assert SetOf(bs) == SetOf(bs[..last]) + {bs[last]};
    }
  }

  /** The contents of the given blocks in the view. */
  ghost function Contents(view: Image, bs: seq<int>): (cs: seq<Block>)
    requires forall i :: 0 <= i < |bs| ==> 0 <= bs[i] < |view|
    ensures |cs| == |bs| && forall i :: 0 <= i < |bs| ==> cs[i] == view[bs[i]]
  {
    seq(|bs|, i requires 0 <= i < |bs| => view[bs[i]])
  }

  /** Nothing is pinned in the log area. */
  ghost predicate ApartFromLog(pinned: set<int>, l: Layout) {
    forall b :: b in pinned ==> !InLog(l, b)
  }

  /** Nobody else holds a block of the log area. */
  ghost predicate LentApart(lent: Lent, l: Layout) {
    forall i :: i in lent ==> !InLog(l, lent[i].blockno)
  }

  lemma LogNotLent(lent: Lent, l: Layout, b: int)
    requires LentApart(lent, l) && InLog(l, b)
    ensures NotLent(lent, b)
  {
  }

  lemma ReadyToLog(bs: seq<Buf>, disk: Image, view: Image, l: Layout, from: int, to: int, pinned: set<int>, lent: Lent)
    requires Coherent(bs, disk, view) && AtRest(bs, disk, pinned, lent)
    requires from in pinned && InLog(l, to) && ApartFromLog(pinned, l) && LentApart(lent, l)
    ensures Pinned(bs) == pinned && to !in pinned && from != to && NotLent(lent, from) && NotLent(lent, to)
  {
    PinnedNotLent(bs, disk, view, lent, from);
    LogNotLent(lent, l, to);
  }

  lemma LogWrittenNext(d: Image, l: Layout, cs: seq<Block>, k: nat)
    requires k < |cs| < l.size && l.start + l.size <= |d|
    ensures LogWritten(d, l, cs, k + 1) == LogWritten(d, l, cs, k)[l.start + k + 1 := cs[k]]
  {
  }

  lemma WithoutOther(s: set<int>, n: int)
    requires n !in s
    ensures s - {n} == s
  {
  }

  /** write_log's step: the next block into the log. */
  method LogOne(cache: Cache, l: Layout, from: nat, ghost d: Image, ghost cs: seq<Block>, tail: nat, ghost pinned: set<int>, ghost lent: Lent) returns (ok: bool)
    requires cache.Valid() && AtRest(cache.bufs[..], cache.disk.blocks, pinned, lent) && LentApart(lent, l)
    requires tail < |cs| < l.size && l.start + l.size <= |d| && from < |d|
    requires from in pinned && ApartFromLog(pinned, l)
    requires cache.disk.blocks == LogWritten(d, l, cs, tail) && cache.view[from] == cs[tail]
    modifies cache`order, cache`view, cache.bufs, cache.prev, cache.next, cache.disk
    ensures ok <==> |pinned| + |lent.Keys| < NBUF
    ensures ok ==> cache.Valid() && AtRest(cache.bufs[..], cache.disk.blocks, pinned, lent)
    ensures ok ==> cache.view == old(cache.view)[l.start + tail + 1 := cs[tail]]
    ensures ok ==> cache.disk.blocks == LogWritten(d, l, cs, tail + 1)
    ensures ok ==> cache.disk.history == old(cache.disk.history) + [cache.disk.blocks]
    ensures !ok ==> cache.disk.blocks == old(cache.disk.blocks) && cache.disk.history == old(cache.disk.history) && cache.view == old(cache.view)
  {
    var to := l.start + tail + 1;
    hide AtRest, ApartFromLog, LentApart, NotLent, Pinned, Coherent, Cache.ListValid, LogWritten;
    ReadyToLog(cache.bufs[..], cache.disk.blocks, cache.view, l, from, to, pinned, lent);
    LogWrittenNext(d, l, cs, tail);
    hide *;
    WithoutOther(pinned, to);
    ok := CopyBlock(cache, from, to, true, lent);
  }

  lemma NextLogState(h: seq<Image>, d: Image, l: Layout, cs: seq<Block>, k: nat)
    requires k < |cs| < l.size && l.start + l.size <= |d|
    ensures h + LogStates(d, l, cs, k) + [LogWritten(d, l, cs, k + 1)] == h + LogStates(d, l, cs, k + 1)
  {
  }

  lemma NextInstallState(h: seq<Image>, d: Image, bs: seq<int>, cs: seq<Block>, k: nat)
    requires k < |bs| == |cs| && forall i :: 0 <= i < |bs| ==> 0 <= bs[i] < |d|
    ensures h + InstallStates(d, bs, cs, k) + [Installed(d, bs, cs, k + 1)] == h + InstallStates(d, bs, cs, k + 1)
  {
  }

  lemma NothingLogged(d: Image, l: Layout, cs: seq<Block>)
    requires |cs| < l.size && l.start + l.size <= |d|
    ensures LogWritten(d, l, cs, 0) == d && LogStates(d, l, cs, 0) == []
  {
  }

  /** install_trans's step: the next block from the log to its home. */
  method InstallOne(cache: Cache, l: Layout, to: nat, ghost d: Image, ghost bs: seq<int>, ghost cs: seq<Block>, tail: nat, ghost pinned: set<int>, ghost lent: Lent) returns (ok: bool)
    requires cache.Valid() && AtRest(cache.bufs[..], cache.disk.blocks, pinned, lent) && HomesOk(bs, l, |d|)
    requires tail < |cs| == |bs| && l.start + l.size <= |d| && to == bs[tail]
    requires LentApart(lent, l) && NotLent(lent, to)
    requires |pinned| + |lent.Keys| < NBUF && (to in pinned || |pinned| + |lent.Keys| + 1 < NBUF)
    requires cache.disk.blocks == Installed(d, bs, cs, tail) && cache.view[l.start + tail + 1] == cs[tail]
    modifies cache`order, cache`view, cache.bufs, cache.prev, cache.next, cache.disk
    ensures ok && cache.Valid() && AtRest(cache.bufs[..], cache.disk.blocks, pinned - {to}, lent)
    ensures cache.view == old(cache.view)[to := cs[tail]]
    ensures cache.disk.blocks == Installed(d, bs, cs, tail + 1)
    ensures cache.disk.history == old(cache.disk.history) + [cache.disk.blocks]
  {
    assert Pinned(cache.bufs[..]) == pinned;
    assert InLog(l, l.start + tail + 1) && !InLog(l, to);
    LogNotLent(lent, l, l.start + tail + 1);
    hide Coherent, Cache.ListValid, QuietExcept, AtRest, LentOut, Pinned, LentApart, NotLent;
    ok := CopyBlock(cache, l.start + tail + 1, to, false, lent);
  }

  /** A buffer read and released again. */
  lemma RestAfterRead(bs: seq<Buf>, disk: Image, pinned: set<int>, lent: Lent, i: nat, b: Buf)
    requires AtRest(bs, disk, pinned, lent) && i < |bs| && i !in lent
    requires b.refcnt == 0 && !b.locked && b.dirty == bs[i].dirty && (b.dirty ==> b.blockno == bs[i].blockno)
    ensures AtRest(bs[i := b], disk, pinned, lent)
  {
    PinnedSame(bs, i, b);
  }

  /** A buffer used and released again, written through for block n, which nobody else holds. */
  lemma RestAfterWrite(bs: seq<Buf>, disk: Image, pinned: set<int>, lent: Lent, i: nat, b: Buf, n: nat, x: Block)
    requires AtRest(bs, disk, pinned, lent) && i < |bs| && i !in lent && NotLent(lent, n) && n < |disk|
    requires b.refcnt == 0 && !b.locked && !b.dirty && !bs[i].dirty
    ensures AtRest(bs[i := b], disk[n := x], pinned, lent)
  {
    PinnedSame(bs, i, b);
  }

  /** write_head: the header block, read, changed and written through. */
  method WriteHead(cache: Cache, l: Layout, block: array<int>, n: nat, ghost pinned: set<int>, ghost lent: Lent)
    requires n <= LOGSIZE <= block.Length && block != cache.prev && block != cache.next
    requires cache.Valid() && AtRest(cache.bufs[..], cache.disk.blocks, pinned, lent) && |pinned| + |lent.Keys| < NBUF
    requires l.start !in pinned && NotLent(lent, l.start)
    requires l.start < |cache.disk.blocks| && |cache.view[l.start]| == WORDS
    modifies cache`order, cache`view, cache.bufs, cache.prev, cache.next, cache.disk
    ensures cache.Valid() && AtRest(cache.bufs[..], cache.disk.blocks, pinned, lent)
    ensures block[..] == old(block[..])
    ensures cache.view == old(cache.view)[l.start := EncodedHeader(old(cache.view[l.start]), block[..n])]
    ensures cache.disk.blocks == old(cache.disk.blocks)[l.start := EncodedHeader(old(cache.view[l.start]), block[..n])]
    ensures cache.disk.history == old(cache.disk.history) + [cache.disk.blocks]
  {
    ghost var bs, disk := cache.bufs[..], cache.disk.blocks;
    var i := ReadHeld(cache, l.start, pinned, lent);
    ghost var cs := cache.bufs[..];
    var data := cache.bufs[i].data;
    ghost var was := data;
    data := data[0 := n];
    for k := 0 to n
      invariant |data| == WORDS && data == [n] + block[..k] + was[1 + k..]
    {
      assert block[..k + 1] == block[..k] + [block[k]] && was[1 + k..] == [was[1 + k]] + was[2 + k..];
      data := data[1 + k := block[k]];
    }
    cache.SetData(i, data);
    cache.Bwrite(i);
    cache.Brelse(i);
    RestAfterWrite(bs, disk, pinned, lent, i, Released(cs[i].(data := data, dirty := false)), l.start, data);
    assert cache.bufs[..] == bs[i := Released(cs[i].(data := data, dirty := false))];
  }

  lemma SomeIdle(bs: seq<Buf>, disk: seq<Block>, view: seq<Block>, lent: Lent)
    requires Coherent(bs, disk, view) && QuietExcept(bs, lent.Keys) && |Pinned(bs)| + |lent.Keys| < NBUF
    ensures exists i :: 0 <= i < NBUF && Idle(bs[i])
  {
    if forall i :: 0 <= i < NBUF ==> !Idle(bs[i]) {
      NoneIdle(bs, disk, view, lent.Keys);
    }
  }

  /** bread of an unpinned block, with room in the cache. */
  method ReadHeld(cache: Cache, b: nat, ghost pinned: set<int>, ghost lent: Lent) returns (i: nat)
    requires cache.Valid() && AtRest(cache.bufs[..], cache.disk.blocks, pinned, lent) && |pinned| + |lent.Keys| < NBUF
    requires b < |cache.disk.blocks| && b !in pinned && NotLent(lent, b)
    modifies cache.bufs, cache.disk
    ensures cache.Valid() && cache.disk.blocks == old(cache.disk.blocks) && cache.disk.history == old(cache.disk.history)
    ensures i < NBUF && i !in lent && cache.bufs[..] == old(cache.bufs[..])[i := cache.bufs[i]]
    ensures HeldFor(old(cache.bufs[i]), cache.bufs[i], b, cache.view[b]) && !old(cache.bufs[i]).dirty
    ensures cache.view[b] == cache.disk.blocks[b]
  {
    ghost var bs, disk, view := cache.bufs[..], cache.disk.blocks, cache.view;
    UnpinnedIsOnDisk(bs, disk, view, lent, b);
    SomeIdle(bs, disk, view, lent);
    UnlockedIfNotLent(bs, disk, lent, b);
    var r := cache.Bread(b);
    i := r.value;
    ReadNotLent(bs, disk, lent, i, b);
    assert Caches(bs[i], b) && bs[i].dirty ==> b in Pinned(bs);
  }

  /** The log area of the disk holds the given contents, as the cache shows it. */
  ghost predicate LogShows(view: Image, l: Layout, cs: seq<Block>) {
    && l.start + l.size <= |view| && |cs| < l.size
    && forall i {:trigger cs[i]} :: 0 <= i < |cs| ==> view[l.start + i + 1] == cs[i]
  }

  ghost function Left(pinned: set<int>, bs: seq<int>, k: nat): set<int>
    requires k <= |bs|
  {
    pinned - SetOf(bs[..k])
  }

  /** What is left to install is still pinned, so its buffer is at hand. */
  lemma StillPinned(pinned: set<int>, bs: seq<int>, k: nat, held: nat)
    requires k < |bs| && |pinned| + held < NBUF && ((pinned == {} && held == 0) || (pinned == SetOf(bs) && Distinct(bs)))
    ensures var p := Left(pinned, bs, k);
      && |p| + held < NBUF && (bs[k] in p || (held == 0 && |p| + 1 < NBUF)) && Left(pinned, bs, k + 1) == p - {bs[k]}
  {
    var p := Left(pinned, bs, k);
    SubsetSize(p, pinned);
    assert bs[..k + 1] == bs[..k] + [bs[k]];
    assert Left(pinned, bs, k + 1) == p - {bs[k]};
    if pinned == {} {
      assert p == {};
    } else {
      assert bs[k] in p;
    }
  }

  /** So nobody else holds it. */
  lemma NextNotLent(bufs: seq<Buf>, disk: Image, view: Image, pinned: set<int>, bs: seq<int>, k: nat, lent: Lent)
    requires Coherent(bufs, disk, view) && k < |bs| && AtRest(bufs, disk, Left(pinned, bs, k), lent)
    requires bs[k] in Left(pinned, bs, k) || |lent.Keys| == 0
    ensures NotLent(lent, bs[k])
  {
    if bs[k] in Left(pinned, bs, k) {
      PinnedNotLent(bufs, disk, view, lent, bs[k]);
    }
  }

  /** Installing one block leaves the log as it was. */
  lemma LogStillShows(view: Image, l: Layout, bs: seq<int>, cs: seq<Block>, k: nat)
    requires LogShows(view, l, cs) && HomesOk(bs, l, |view|) && k < |bs| == |cs|
    ensures LogShows(view[bs[k] := cs[k]], l, cs)
  {
    forall i {:trigger cs[i]} | 0 <= i < |cs|
      ensures view[bs[k] := cs[k]][l.start + i + 1] == cs[i]
    {
      assert InLog(l, l.start + i + 1) && !InLog(l, bs[k]);
    }
  }

  lemma NothingInstalled(d: Image, bs: seq<int>, cs: seq<Block>)
    requires |bs| == |cs| && forall i :: 0 <= i < |bs| ==> 0 <= bs[i] < |d|
    ensures Installed(d, bs, cs, 0) == d && InstallStates(d, bs, cs, 0) == []
  {
  }

  /** How far install_trans has come. */
  ghost predicate Installing(bufs: seq<Buf>, disk: Image, view: Image, l: Layout, bs: seq<int>, cs: seq<Block>, d: Image, v: Image, pinned: set<int>, lent: Lent, k: nat)
    requires k <= |bs| == |cs| && |v| == |d| && forall i :: 0 <= i < |bs| ==> 0 <= bs[i] < |d|
  {
    && AtRest(bufs, disk, Left(pinned, bs, k), lent) && LogShows(view, l, cs)
    && view == Installed(v, bs, cs, k) && disk == Installed(d, bs, cs, k)
  }

  /** What install_trans may start from: during recovery nothing is pinned or held, during commit the transaction is pinned. */
  ghost predicate Installable(pinned: set<int>, bs: seq<int>, lent: Lent, l: Layout) {
    && LentApart(lent, l) && |pinned| + |lent.Keys| < NBUF
    && ((pinned == {} && |lent.Keys| == 0) || (pinned == SetOf(bs) && Distinct(bs)))
  }

  /** One turn of install_trans. */
  method InstallNext(cache: Cache, l: Layout, to: nat, ghost bs: seq<int>, ghost cs: seq<Block>, ghost d: Image, ghost v: Image, ghost pinned: set<int>, ghost lent: Lent, tail: nat)
    requires HomesOk(bs, l, |d|) && tail < |bs| == |cs| && |v| == |d| && to == bs[tail] && Installable(pinned, bs, lent, l)
    requires cache.Valid() && Installing(cache.bufs[..], cache.disk.blocks, cache.view, l, bs, cs, d, v, pinned, lent, tail)
    modifies cache`order, cache`view, cache.bufs, cache.prev, cache.next, cache.disk
    ensures cache.Valid() && Installing(cache.bufs[..], cache.disk.blocks, cache.view, l, bs, cs, d, v, pinned, lent, tail + 1)
    ensures cache.disk.history == old(cache.disk.history) + [Installed(d, bs, cs, tail + 1)]
  {
    StillPinned(pinned, bs, tail, |lent.Keys|);
    NextNotLent(cache.bufs[..], cache.disk.blocks, cache.view, pinned, bs, tail, lent);
    LogStillShows(cache.view, l, bs, cs, tail);
    LogShowsAt(cache.view, l, cs, tail);
    hide AtRest, LogShows, Coherent, Cache.ListValid, Left, SetOf, Distinct, LentApart, NotLent;
    var ok := InstallOne(cache, l, to, d, bs, cs, tail, Left(pinned, bs, tail), lent);
  }

  lemma InstallStart(bufs: seq<Buf>, view: Image, l: Layout, bs: seq<int>, cs: seq<Block>, d: Image, pinned: set<int>, lent: Lent)
    requires |bs| == |cs| && |view| == |d| && forall i :: 0 <= i < |bs| ==> 0 <= bs[i] < |d|
    requires AtRest(bufs, d, pinned, lent) && LogShows(view, l, cs)
    ensures Installing(bufs, d, view, l, bs, cs, d, view, pinned, lent, 0)
  {
    assert Left(pinned, bs, 0) == pinned;
  }

  lemma InstallEnd(bufs: seq<Buf>, disk: Image, view: Image, l: Layout, bs: seq<int>, cs: seq<Block>, d: Image, v: Image, pinned: set<int>, lent: Lent)
    requires |bs| == |cs| && |v| == |d| && forall i :: 0 <= i < |bs| ==> 0 <= bs[i] < |d|
    requires Installing(bufs, disk, view, l, bs, cs, d, v, pinned, lent, |bs|)
    ensures AtRest(bufs, disk, pinned - SetOf(bs), lent)
    ensures view == Installed(v, bs, cs, |bs|) && disk == Installed(d, bs, cs, |bs|)
  {
    assert bs[..|bs|] == bs;
  }

  /** install_trans. */
  method InstallTrans(cache: Cache, l: Layout, block: array<int>, n: nat, ghost bs: seq<int>, ghost d: Image, ghost cs: seq<Block>, ghost pinned: set<int>, ghost lent: Lent)
    requires n <= block.Length && block != cache.prev && block != cache.next && bs == block[..n]
    requires cache.Valid() && AtRest(cache.bufs[..], cache.disk.blocks, pinned, lent) && d == cache.disk.blocks && |cache.view| == |d|
    requires Installable(pinned, bs, lent, l)
    requires HomesOk(bs, l, |d|) && |cs| == n && LogShows(cache.view, l, cs)
    modifies cache`order, cache`view, cache.bufs, cache.prev, cache.next, cache.disk
    ensures block[..] == old(block[..])
    ensures cache.Valid() && AtRest(cache.bufs[..], cache.disk.blocks, pinned - SetOf(bs), lent)
    ensures cache.view == Installed(old(cache.view), bs, cs, n)
    ensures cache.disk.blocks == Installed(d, bs, cs, n)
    ensures cache.disk.history == old(cache.disk.history) + InstallStates(d, bs, cs, n)
  {
    ghost var v, h := cache.view, cache.disk.history;
    InstallStart(cache.bufs[..], v, l, bs, cs, d, pinned, lent);
    hide *;
    InstallAll(cache, l, block, n, bs, cs, d, v, pinned, lent);
    InstallEnd(cache.bufs[..], cache.disk.blocks, cache.view, l, bs, cs, d, v, pinned, lent);
  }

  /** Its loop. */
  method InstallAll(cache: Cache, l: Layout, block: array<int>, n: nat, ghost bs: seq<int>, ghost cs: seq<Block>, ghost d: Image, ghost v: Image, ghost pinned: set<int>, ghost lent: Lent)
    requires n <= block.Length && block != cache.prev && block != cache.next && bs == block[..n] && |cs| == n && |v| == |d|
    requires HomesOk(bs, l, |d|) && Installable(pinned, bs, lent, l)
    requires cache.Valid() && Installing(cache.bufs[..], cache.disk.blocks, cache.view, l, bs, cs, d, v, pinned, lent, 0)
    modifies cache`order, cache`view, cache.bufs, cache.prev, cache.next, cache.disk
    ensures block[..] == old(block[..])
    ensures cache.Valid() && Installing(cache.bufs[..], cache.disk.blocks, cache.view, l, bs, cs, d, v, pinned, lent, n)
    ensures cache.disk.history == old(cache.disk.history) + InstallStates(d, bs, cs, n)
  {
    ghost var h := cache.disk.history;
    NothingInstalled(d, bs, cs);
    assert forall i :: 0 <= i < |bs| ==> 0 <= bs[i] < |d|;
    hide *;
    for tail := 0 to n
      invariant cache.Valid() && block[..] == old(block[..])
      invariant Installing(cache.bufs[..], cache.disk.blocks, cache.view, l, bs, cs, d, v, pinned, lent, tail)
      invariant cache.disk.history == h + InstallStates(d, bs, cs, tail)
    {
      assert bs[tail] == block[tail];
      InstallNext(cache, l, block[tail], bs, cs, d, v, pinned, lent, tail);
      NextInstallState(h, d, bs, cs, tail);
    }
  }

  lemma LogShowsAt(view: Image, l: Layout, cs: seq<Block>, i: nat)
    requires LogShows(view, l, cs) && i < |cs|
    ensures view[l.start + i + 1] == cs[i]
  {
  }

  /** write_log. False is the panic: every buffer is pinned by the transaction or held by others. */
  method WriteLog(cache: Cache, l: Layout, block: array<int>, n: nat, ghost bs: seq<int>, ghost d: Image, ghost cs: seq<Block>, ghost lent: Lent) returns (ok: bool)
    requires n <= block.Length && block != cache.prev && block != cache.next && bs == block[..n] && Distinct(bs)
    requires cache.Valid() && AtRest(cache.bufs[..], cache.disk.blocks, SetOf(bs), lent) && LentApart(lent, l) && d == cache.disk.blocks
    requires HomesOk(bs, l, |d|) && l.start + l.size <= |d| && cs == Contents(cache.view, bs)
    modifies cache`order, cache`view, cache.bufs, cache.prev, cache.next, cache.disk
    ensures ok <==> n == 0 || n + |lent.Keys| < NBUF
    ensures ok ==> cache.Valid() && AtRest(cache.bufs[..], cache.disk.blocks, SetOf(bs), lent)
    ensures SameHome(cache.view, old(cache.view), l) && cache.view[l.start] == old(cache.view[l.start])
    ensures ok ==> cache.disk.blocks == LogWritten(d, l, cs, n)
    ensures ok ==> cache.disk.history == old(cache.disk.history) + LogStates(d, l, cs, n)
    ensures !ok ==> cache.disk.blocks == d && cache.disk.history == old(cache.disk.history)
  {
    hide LogWritten, LogStates, AtRest, LentApart;
    ghost var v, h := cache.view, cache.disk.history;
    SetOfDistinct(bs);
    NothingLogged(d, l, cs);
    for tail := 0 to n
      invariant cache.Valid() && AtRest(cache.bufs[..], cache.disk.blocks, SetOf(bs), lent) && block[..n] == bs
      invariant tail > 0 ==> n + |lent.Keys| < NBUF
      invariant SameHome(cache.view, v, l) && cache.view[l.start] == v[l.start]
      invariant cache.disk.blocks == LogWritten(d, l, cs, tail)
      invariant cache.disk.history == h + LogStates(d, l, cs, tail)
    {
      assert bs[tail] == block[tail] && block[tail] in SetOf(bs);
      ok := LogOne(cache, l, block[tail], d, cs, tail, SetOf(bs), lent);
      if !ok {
        return;
      }
      NextLogState(h, d, l, cs, tail);
    }
    ok := true;
  }

  /** Installing what the view shows of its own homes. */
  lemma {:induction false} InstalledFromView(d: Image, v: Image, bs: seq<int>, k: nat, b: nat)
    requires k <= |bs| && |d| == |v| && (forall i :: 0 <= i < |bs| ==> 0 <= bs[i] < |d|) && b < |d|
    ensures Installed(d, bs, Contents(v, bs), k)[b] == if b in bs[..k] then v[b] else d[b]
  {
    if k != 0 {
      InstalledFromView(d, v, bs, k - 1, b);
      assert bs[..k] == bs[..k - 1] + [bs[k - 1]];
    }
  }

  /** Away from the pinned blocks the disk shows the view, so installing those makes it show all of it. */
  lemma InstallingShowsView(d: Image, v: Image, l: Layout, bs: seq<int>)
    requires |d| == |v| && (forall i :: 0 <= i < |bs| ==> 0 <= bs[i] < |d|)
    requires forall b :: 0 <= b < |d| && !InLog(l, b) && b !in bs ==> d[b] == v[b]
    ensures SameHome(Installed(d, bs, Contents(v, bs), |bs|), v, l)
  {
    assert bs[..|bs|] == bs;
    forall b | 0 <= b < |d| && !InLog(l, b)
      ensures Installed(d, bs, Contents(v, bs), |bs|)[b] == v[b]
    {
      InstalledFromView(d, v, bs, |bs|, b);
    }
  }

  lemma UnpinnedHomes(bs: seq<Buf>, disk: seq<Block>, view: seq<Block>, homes: seq<int>, lent: Lent)
    requires Coherent(bs, disk, view) && AtRest(bs, disk, SetOf(homes), lent)
    ensures forall b {:trigger view[b]} {:trigger disk[b]} :: 0 <= b < |disk| && b !in homes ==> disk[b] == view[b]
  {
    forall b {:trigger view[b]} {:trigger disk[b]} | 0 <= b < |disk| && b !in homes
      ensures disk[b] == view[b]
    {
      UnpinnedIsOnDisk(bs, disk, view, lent, b);
    }
  }

  /** After the header is written the log shows the transaction. */
  lemma CommittedShows(bs: seq<Buf>, view: seq<Block>, l: Layout, homes: seq<int>, d: Image, cs: seq<Block>, lent: Lent)
    requires Committable(d, l, homes, cs) && Coherent(bs, Committed(d, l, homes, cs), view) && AtRest(bs, Committed(d, l, homes, cs), SetOf(homes), lent)
    ensures LogShows(view, l, cs) && view[l.start] == Committed(d, l, homes, cs)[l.start]
  {
    var c := Committed(d, l, homes, cs);
    CommitPoint(d, l, homes, cs);
    UnpinnedHomes(bs, c, view, homes, lent);
    forall i {:trigger cs[i]} | 0 <= i < |cs|
      ensures view[l.start + i + 1] == cs[i]
    {
      assert InLog(l, l.start + i + 1) && cs[i] == Logged(c, l)[i];
    }
    assert InLog(l, l.start);
  }

  /** Every disk a crash can leave recovers to the old contents, or from the header write on, to the new. */
  ghost predicate CrashSafe(states: seq<Image>, point: nat, before: Image, after: Image, l: Layout) {
    forall k {:trigger states[k]} :: 0 <= k < |states| ==>
      Recoverable(states[k], l) && SameHome(Recovered(states[k], l), if k < point then before else after, l)
  }

  lemma CommitIsCrashSafe(d: Image, v: Image, l: Layout, bs: seq<int>)
    requires |d| == |v| && Recoverable(d, l) && Homes(d, l) == [] && HomesOk(bs, l, |d|)
    requires forall b :: 0 <= b < |d| && !InLog(l, b) && b !in bs ==> d[b] == v[b]
    ensures CrashSafe(CommitStates(d, l, bs, Contents(v, bs)), |bs|, d, v, l)
  {
    var cs := Contents(v, bs);
    InstallingShowsView(d, v, l, bs);
    forall k {:trigger CommitStates(d, l, bs, cs)[k]} | 0 <= k < |CommitStates(d, l, bs, cs)|
      ensures var e := CommitStates(d, l, bs, cs)[k];
        Recoverable(e, l) && SameHome(Recovered(e, l), if k < |bs| then d else v, l)
    {
      var e := CommitStates(d, l, bs, cs)[k];
      CommitCrash(d, l, bs, cs, k);
      if k >= |bs| {
        SameHomeTransitive(Recovered(e, l), Installed(d, bs, cs, |bs|), v, l);
      }
    }
  }

  /** The writes of commit: the log's, the header, the installations, the cleared header. */
  lemma CommitTail(d: Image, l: Layout, bs: seq<int>, cs: seq<Block>)
    requires Committable(d, l, bs, cs)
    ensures var c, s := Committed(d, l, bs, cs), CommitStates(d, l, bs, cs);
      && s == LogStates(d, l, cs, |bs|) + s[|bs|..]
      && Recoverable(c, l) && s[|bs|..] == [c] + RecoverStates(c, l)
  {
    CommitPoint(d, l, bs, cs);
  }

  /** What commit leaves on the disk is what the cache showed. */
  lemma CommittedShowsView(d: Image, v: Image, l: Layout, bs: seq<int>)
    requires |d| == |v| && Recoverable(d, l) && Homes(d, l) == [] && HomesOk(bs, l, |d|)
    requires forall b :: 0 <= b < |d| && !InLog(l, b) && b !in bs ==> d[b] == v[b]
    ensures var c := Committed(d, l, bs, Contents(v, bs)); Recoverable(c, l) && SameHome(Recovered(c, l), v, l)
  {
    var cs := Contents(v, bs);
    InstallingShowsView(d, v, l, bs);
    CommittedRecovers(d, l, bs, cs);
    SameHomeTransitive(Recovered(Committed(d, l, bs, cs), l), Installed(d, bs, cs, |bs|), v, l);
  }

  lemma RecoverTail(h: seq<Image>, d: Image, l: Layout)
    requires Recoverable(d, l)
    ensures h + InstallStates(d, Homes(d, l), Logged(d, l), |Homes(d, l)|) + [Recovered(d, l)] == h + RecoverStates(d, l)
  {
  }

  lemma JoinTail(h: seq<Image>, d: Image, l: Layout, bs: seq<int>, cs: seq<Block>)
    requires Committable(d, l, bs, cs)
    ensures var c := Committed(d, l, bs, cs);
      Recoverable(c, l) && h + [c] + RecoverStates(c, l) == h + CommitStates(d, l, bs, cs)[|bs|..]
  {
    CommitTail(d, l, bs, cs);
  }

  lemma JoinStates(h: seq<Image>, d: Image, l: Layout, bs: seq<int>, cs: seq<Block>)
    requires Committable(d, l, bs, cs)
    ensures h + LogStates(d, l, cs, |bs|) + CommitStates(d, l, bs, cs)[|bs|..] == h + CommitStates(d, l, bs, cs)
  {
    CommitTail(d, l, bs, cs);
  }

  class Log {
    const cache: Cache
    const layout: Layout
    const block: array<int>
    var n: nat
    var outstanding: int
    var committing: bool

    ghost function Blocks(): seq<int>
      reads this, block
      requires n <= block.Length
    {
      block[..n]
    }

    /**
      What holds whenever the log itself uses no buffer: the log on the disk is
      empty, and exactly the blocks of the running transaction are pinned in the
      cache, so that the disk still shows what was committed last. Other
      processes may hold buffers of blocks outside the transaction.
     */
    ghost predicate Valid(lent: Lent)
      reads this, block, cache, cache.disk, cache.bufs, cache.prev, cache.next
    {
      && Shaped()
      && Recoverable(cache.disk.blocks, layout) && Homes(cache.disk.blocks, layout) == []
      && Distinct(Blocks()) && HomesOk(Blocks(), layout, |cache.disk.blocks|)
      && cache.Valid() && AtRest(cache.bufs[..], cache.disk.blocks, SetOf(Blocks()), lent) && LentApart(lent, layout)
    }

    ghost predicate Shaped()
      reads this, block
    {
      n <= LOGSIZE == block.Length && block != cache.prev && block != cache.next
    }

    /** initlog. */
    constructor (cache: Cache, layout: Layout)
      requires cache.Valid() && AtRest(cache.bufs[..], cache.disk.blocks, {}, map[])
      requires Recoverable(cache.disk.blocks, layout)
      modifies cache`order, cache`view, cache.bufs, cache.prev, cache.next, cache.disk
      ensures this.cache == cache && this.layout == layout && fresh(block)
      ensures Valid(map[]) && Blocks() == [] && outstanding == 0 && !committing
      ensures cache.disk.blocks == Recovered(old(cache.disk.blocks), layout)
      ensures cache.disk.history == old(cache.disk.history) + RecoverStates(old(cache.disk.blocks), layout)
      ensures cache.view == cache.disk.blocks
    {
      this.cache := cache;
      this.layout := layout;
      block := new int[LOGSIZE];
      n, outstanding, committing := 0, 0, false;
      new;
      RecoverFromLog();
    }

    /** read_head. */
    method ReadHead()
      requires Shaped() && cache.Valid() && AtRest(cache.bufs[..], cache.disk.blocks, {}, map[])
      requires Recoverable(cache.disk.blocks, layout)
      modifies `n, block, cache`order, cache.bufs, cache.prev, cache.next, cache.disk
      ensures Shaped() && Blocks() == Homes(old(cache.disk.blocks), layout)
      ensures cache.Valid() && AtRest(cache.bufs[..], cache.disk.blocks, {}, map[])
      ensures cache.disk.blocks == old(cache.disk.blocks) && cache.disk.history == old(cache.disk.history)
    {
      ghost var bs, d := cache.bufs[..], cache.disk.blocks;
      var i := ReadHeld(cache, layout.start, {}, map[]);
      ghost var cs := cache.bufs[..];
      var h := cache.bufs[i].data;
      n := h[0];
      for k := 0 to n
        invariant n == h[0] && Shaped() && block[..k] == h[1..1 + k]
        invariant cache.Valid() && cache.bufs[..] == cs && cache.disk.blocks == d && cache.disk.history == old(cache.disk.history)
      {
        block[k] := h[1 + k];
        assert block[..k + 1] == block[..k] + [h[1 + k]];
      }
      RestAfterRead(bs, d, {}, map[], i, Released(cs[i]));
      cache.Brelse(i);
      assert cache.bufs[..] == bs[i := Released(cs[i])];
    }

    /**
      log_write for a held buffer: absorbed if the transaction has the block,
      else appended. False is one of the two panics.
     */
    method LogWrite(i: nat) returns (ok: bool)
      requires Shaped() && cache.Valid() && Distinct(Blocks())
      requires HomesOk(Blocks(), layout, |cache.disk.blocks|)
      requires i < NBUF && cache.bufs[i].locked && cache.bufs[i].valid && !InLog(layout, cache.bufs[i].blockno)
      modifies `n, block, cache.bufs
      ensures Shaped() && cache.Valid() && Distinct(Blocks()) && HomesOk(Blocks(), layout, |cache.disk.blocks|)
      ensures ok <==> old(n) < LOGSIZE && old(n) < layout.size - 1 && outstanding >= 1
      ensures var b := old(cache.bufs[i]).blockno;
        if ok then
          && Blocks() == (if b in old(Blocks()) then old(Blocks()) else old(Blocks()) + [b])
          && cache.bufs[..] == old(cache.bufs[..])[i := old(cache.bufs[i]).(dirty := true)]
          && Pinned(cache.bufs[..]) == Pinned(old(cache.bufs[..])) + {b}
        else Blocks() == old(Blocks()) && cache.bufs[..] == old(cache.bufs[..])
      ensures TakesWrite(old(Blocks()), outstanding, old(cache.bufs[i]).blockno, ok, Blocks(), layout.size)
    {
      var b := cache.bufs[i].blockno;
      WriteIsTaken(Blocks(), outstanding, b, layout.size);
      RefusalIsTaken(Blocks(), outstanding, b, layout.size);
      hide TakesWrite;
      if n >= LOGSIZE || n >= layout.size - 1 || outstanding < 1 {
        return false;
      }
      ghost var was := cache.bufs[..];
      assert BufOk(was[i], cache.disk.blocks, cache.view);
      AddHome(b);
      cache.MarkDirty(i);
      PinnedAdded(was, i, was[i].(dirty := true));
      ok := true;
    }

    /** log_write's search for the block, which is appended if it is not there. */
    method AddHome(b: int)
      requires Shaped() && n < LOGSIZE
      modifies `n, block
      ensures Shaped() && Blocks() == if b in old(Blocks()) then old(Blocks()) else old(Blocks()) + [b]
    {
      ghost var bs := Blocks();
      var k := 0;
      while k < n && block[k] != b
        invariant 0 <= k <= n
        invariant forall j :: 0 <= j < k ==> block[j] != b
      {
        k := k + 1;
      }
      assert k < n ==> bs[k] == b;
      block[k] := b;
      if k == n {
        n := n + 1;
      }
      assert Blocks() == if b in bs then bs else bs + [b];
    }

    /** One turn of begin_op's loop. False is to sleep and try again. */
    method TryBeginOp() returns (admitted: bool)
      requires Shaped()
      modifies `outstanding
      ensures admitted <==> !committing && n + (old(outstanding) + 1) * MAXOPBLOCKS <= LOGSIZE
      ensures outstanding == old(outstanding) + if admitted then 1 else 0
      ensures !committing ==> TakesBegin(Blocks(), old(outstanding), admitted, outstanding, layout.size)
    {
      BeginIsTaken(Blocks(), outstanding, layout.size);
      if committing {
        admitted := false;
      } else if n + (outstanding + 1) * MAXOPBLOCKS > LOGSIZE {
        admitted := false;
      } else {
        outstanding := outstanding + 1;
        admitted := true;
      }
    }

    /** end_op, while other processes go on holding the buffers in lent. False is one of its panics. */
    method EndOp(ghost lent: Lent) returns (ok: bool)
      requires Valid(lent)
      modifies `n, `outstanding, `committing, cache`order, cache`view, cache.bufs, cache.prev, cache.next, cache.disk
      ensures outstanding == old(outstanding) - 1
      ensures ok <==> !old(committing) && (outstanding == 0 ==> old(n) + |lent.Keys| < NBUF || old(n) == 0)
      ensures |cache.disk.history| >= |old(cache.disk.history)|
      ensures ok ==> Valid(lent) && !committing
      ensures ok ==> TakesEnd(old(Blocks()), old(outstanding), |lent.Keys|, true, Blocks(), layout.size)
      ensures !ok && !old(committing) ==> TakesEnd(old(Blocks()), old(outstanding), |lent.Keys|, false, [], layout.size)
      ensures ok && outstanding == 0 ==> n == 0 && SameHome(cache.view, old(cache.view), layout) && SameHome(cache.disk.blocks, cache.view, layout)
      ensures ok && outstanding == 0 ==> CrashSafe(cache.disk.history[old(|cache.disk.history|)..], old(n), old(cache.disk.blocks), old(cache.view), layout)
      ensures outstanding != 0 ==> n == old(n) && cache.view == old(cache.view) && cache.disk.blocks == old(cache.disk.blocks) && cache.disk.history == old(cache.disk.history)
    {
      EndIsTaken(Blocks(), outstanding, |lent.Keys|, layout.size);
      hide TakesEnd;
      outstanding := outstanding - 1;
      if committing {
        return false;
      }
      ok := true;
      if outstanding == 0 {
        committing := true;
        hide Coherent, Cache.ListValid, Recoverable, Recovered, CrashSafe;
        ok := Commit(lent);
        if ok {
          committing := false;
        }
      }
    }

    /**
      commit, the transaction being all of n blocks. False is the panic for want
      of a buffer. A crash after any of its writes leaves all of the
      transaction or none of it, and in the end the disk shows what the cache did.
     */
    method Commit(ghost lent: Lent) returns (ok: bool)
      requires Valid(lent)
      modifies `n, cache`order, cache`view, cache.bufs, cache.prev, cache.next, cache.disk
      ensures ok <==> old(n) == 0 || old(n) + |lent.Keys| < NBUF
      ensures |cache.disk.history| >= |old(cache.disk.history)|
      ensures ok ==> Valid(lent) && n == 0
      ensures ok ==> SameHome(cache.view, old(cache.view), layout) && SameHome(cache.disk.blocks, cache.view, layout)
      ensures old(n) == 0 || !ok ==> cache.disk.blocks == old(cache.disk.blocks) && cache.disk.history == old(cache.disk.history)
      ensures ok && old(n) > 0 ==> cache.disk.history == old(cache.disk.history) + CommitStates(old(cache.disk.blocks), layout, old(Blocks()), Contents(old(cache.view), old(Blocks())))
      ensures ok ==> CrashSafe(cache.disk.history[old(|cache.disk.history|)..], old(n), old(cache.disk.blocks), old(cache.view), layout)
    {
      ghost var bs, d, v := Blocks(), cache.disk.blocks, cache.view;
      ghost var cs := Contents(v, bs);
      UnpinnedHomes(cache.bufs[..], d, v, bs, lent);
      CommitIsCrashSafe(d, v, layout, bs);
      CommittedShowsView(d, v, layout, bs);
      hide Coherent, Cache.ListValid, CommitStates, Contents, Recovered, Committed;
      ok := true;
      if n > 0 {
        ok := CommitSome(bs, d, cs, lent);
        assert ok ==> cache.disk.history[old(|cache.disk.history|)..] == CommitStates(d, layout, bs, cs);
      }
    }

    method CommitSome(ghost bs: seq<int>, ghost d: Image, ghost cs: seq<Block>, ghost lent: Lent) returns (ok: bool)
      requires Valid(lent) && n > 0 && bs == Blocks() && d == cache.disk.blocks && cs == Contents(cache.view, bs)
      requires Committable(d, layout, bs, cs)
      modifies `n, cache`order, cache`view, cache.bufs, cache.prev, cache.next, cache.disk
      ensures ok <==> old(n) + |lent.Keys| < NBUF
      ensures ok ==> Valid(lent) && n == 0
      ensures ok ==> cache.view == cache.disk.blocks == Recovered(Committed(d, layout, bs, cs), layout)
      ensures ok ==> cache.disk.history == old(cache.disk.history) + CommitStates(d, layout, bs, cs)
      ensures !ok ==> cache.disk.blocks == d && cache.disk.history == old(cache.disk.history)
    {
      assert cache.view[layout.start] == d[layout.start] by {
        UnpinnedHomes(cache.bufs[..], d, cache.view, bs, lent);
        assert InLog(layout, layout.start);
      }
      ghost var h := cache.disk.history;
      hide *;
      ok := WriteLog(cache, layout, block, n, bs, d, cs, lent);
      if ok {
        FinishCommit(bs, d, cs, lent);
        JoinStates(h, d, layout, bs, cs);
      }
    }

    /** The rest of commit, from write_head on. */
    method FinishCommit(ghost bs: seq<int>, ghost d: Image, ghost cs: seq<Block>, ghost lent: Lent)
      requires Shaped() && bs == Blocks() && Distinct(bs) && 0 < n && n + |lent.Keys| < NBUF && LentApart(lent, layout)
      requires Committable(d, layout, bs, cs)
      requires cache.Valid() && AtRest(cache.bufs[..], cache.disk.blocks, SetOf(bs), lent)
      requires cache.disk.blocks == LogWritten(d, layout, cs, n) && cache.view[layout.start] == d[layout.start]
      modifies `n, cache`order, cache`view, cache.bufs, cache.prev, cache.next, cache.disk
      ensures Valid(lent) && n == 0
      ensures cache.view == cache.disk.blocks == Recovered(Committed(d, layout, bs, cs), layout)
      ensures cache.disk.history == old(cache.disk.history) + CommitStates(d, layout, bs, cs)[|bs|..]
    {
      ghost var c, h := Committed(d, layout, bs, cs), cache.disk.history;
      PutHeader(bs, d, cs, lent);
      CommitPoint(d, layout, bs, cs);
      hide *;
      InstallAndClear(c, SetOf(bs), lent);
      JoinTail(h, d, layout, bs, cs);
    }

    method PutHeader(ghost bs: seq<int>, ghost d: Image, ghost cs: seq<Block>, ghost lent: Lent)
      requires Shaped() && bs == Blocks() && Distinct(bs) && 0 < n && n + |lent.Keys| < NBUF && LentApart(lent, layout)
      requires Committable(d, layout, bs, cs)
      requires cache.Valid() && AtRest(cache.bufs[..], cache.disk.blocks, SetOf(bs), lent)
      requires cache.disk.blocks == LogWritten(d, layout, cs, n) && cache.view[layout.start] == d[layout.start]
      modifies cache`order, cache`view, cache.bufs, cache.prev, cache.next, cache.disk
      ensures block[..] == old(block[..])
      ensures cache.Valid() && AtRest(cache.bufs[..], cache.disk.blocks, SetOf(bs), lent) && |SetOf(bs)| == |bs|
      ensures cache.disk.blocks == Committed(d, layout, bs, cs)
      ensures cache.disk.history == old(cache.disk.history) + [cache.disk.blocks]
      ensures LogShows(cache.view, layout, cs) && cache.view[layout.start] == cache.disk.blocks[layout.start]
    {
      SetOfDistinct(bs);
      assert InLog(layout, layout.start);
      LogNotLent(lent, layout, layout.start);
      WriteHead(cache, layout, block, n, SetOf(bs), lent);
      CommittedShows(cache.bufs[..], cache.view, layout, bs, d, cs, lent);
    }

    /** What recovery and commit end with: install_trans, an empty transaction, write_head. */
    method InstallAndClear(ghost d: Image, ghost pinned: set<int>, ghost lent: Lent)
      requires Shaped() && Recoverable(d, layout) && Blocks() == Homes(d, layout)
      requires cache.Valid() && AtRest(cache.bufs[..], cache.disk.blocks, pinned, lent) && d == cache.disk.blocks
      requires Installable(pinned, Blocks(), lent, layout)
      requires LogShows(cache.view, layout, Logged(d, layout)) && cache.view[layout.start] == d[layout.start]
      modifies `n, cache`order, cache`view, cache.bufs, cache.prev, cache.next, cache.disk
      ensures Valid(lent) && n == 0
      ensures cache.view == cache.disk.blocks == Recovered(d, layout)
      ensures cache.disk.history == old(cache.disk.history) + RecoverStates(d, layout)
    {
      ghost var bs, cs, w := Blocks(), Logged(d, layout), cache.view;
      InstallTrans(cache, layout, block, n, bs, d, cs, pinned, lent);
      LogNotLent(lent, layout, layout.start);
      assert pinned - SetOf(bs) == {};
      InstalledElsewhere(d, bs, cs, |bs|, layout.start);
      InstalledElsewhere(w, bs, cs, |bs|, layout.start);
      hide Coherent, Cache.ListValid, QuietExcept, Pinned, Installed, InstallStates, RecoverStates, LogShows, Logged;
      n := 0;
      WriteHead(cache, layout, block, n, {}, lent);
      RecoveredIsClean(d, layout);
      RestingIsDisk(cache.bufs[..], cache.disk.blocks, cache.view, lent);
      RecoverTail(old(cache.disk.history), d, layout);
    }

    method RecoverFromLog()
      requires Shaped() && cache.Valid() && AtRest(cache.bufs[..], cache.disk.blocks, {}, map[])
      requires Recoverable(cache.disk.blocks, layout)
      modifies `n, block, cache`order, cache`view, cache.bufs, cache.prev, cache.next, cache.disk
      ensures Valid(map[]) && Blocks() == []
      ensures cache.disk.blocks == Recovered(old(cache.disk.blocks), layout)
      ensures cache.disk.history == old(cache.disk.history) + RecoverStates(old(cache.disk.blocks), layout)
      ensures cache.view == cache.disk.blocks
    {
      ghost var d := cache.disk.blocks;
      ReadHead();
      RestingIsDisk(cache.bufs[..], cache.disk.blocks, cache.view, map[]);
      LoggedShows(d, layout);
      InstallAndClear(d, {}, map[]);
    }
  }

  lemma RestingIsDisk(bs: seq<Buf>, disk: seq<Block>, view: seq<Block>, lent: Lent)
    requires Coherent(bs, disk, view) && AtRest(bs, disk, {}, lent)
    ensures view == disk
  {
    forall b | 0 <= b < |disk|
      ensures view[b] == disk[b]
    {
      UnpinnedIsOnDisk(bs, disk, view, lent, b);
    }
  }

  lemma LoggedShows(d: Image, l: Layout)
    requires Recoverable(d, l)
    ensures LogShows(d, l, Logged(d, l))
  {
  }
}
