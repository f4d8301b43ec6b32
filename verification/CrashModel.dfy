/**
  The redo log of operating-systems/xv6-OS/log.c as disk contents only: the
  states its writes go through, and what recovery makes of each of them.
 */
module CrashModel {
  import opened BufferCache

  const LOGSIZE := 30

  type Image = seq<Block>

  /** The log occupies blocks start..start+size, its header first. */
  datatype Layout = Layout(start: nat, size: nat)

  ghost predicate InLog(l: Layout, b: int) { l.start <= b < l.start + l.size }

  // ----- The header block

  ghost predicate HeaderOk(h: Block) { |h| == WORDS && 0 <= h[0] <= LOGSIZE }

  ghost function HomeBlocks(h: Block): (bs: seq<int>)
    requires HeaderOk(h)
    ensures |bs| == h[0]
  {
    h[1..1 + h[0]]
  }

  /** write_head: the count and the block numbers, over whatever the block held before. */
  ghost function EncodedHeader(h: Block, bs: seq<int>): (r: Block)
    requires |h| == WORDS && |bs| <= LOGSIZE
    ensures HeaderOk(r)
  {
    [|bs|] + bs + h[1 + |bs|..]
  }

  lemma HeaderRoundTrip(h: Block, bs: seq<int>)
    requires |h| == WORDS && |bs| <= LOGSIZE
    ensures HomeBlocks(EncodedHeader(h, bs)) == bs
  {
  }

  /** The count comes first, then the numbers in order; what stood behind them stays. */
  lemma HeaderWords(h: Block, bs: seq<int>, k: nat)
    requires |h| == WORDS && |bs| <= LOGSIZE && k < WORDS
    ensures EncodedHeader(h, bs)[k] == if k == 0 then |bs| else if k <= |bs| then bs[k - 1] else h[k]
  {
  }

  // ----- Installing and logging

  /** The first k logged blocks copied to their homes. */
  ghost function Installed(d: Image, bs: seq<int>, cs: seq<Block>, k: nat): (r: Image)
    requires k <= |bs| == |cs| && forall i :: 0 <= i < |bs| ==> 0 <= bs[i] < |d|
    ensures |r| == |d|
  {
    if k == 0 then d else Installed(d, bs, cs, k - 1)[bs[k - 1] := cs[k - 1]]
  }

  /** The first k contents copied to the log area. */
  ghost function LogWritten(d: Image, l: Layout, cs: seq<Block>, k: nat): (r: Image)
    requires k <= |cs| < l.size && l.start + l.size <= |d|
    ensures |r| == |d|
  {
    if k == 0 then d else LogWritten(d, l, cs, k - 1)[l.start + k := cs[k - 1]]
  }

  ghost predicate HomesOk(bs: seq<int>, l: Layout, size: nat) {
    && |bs| <= LOGSIZE && |bs| < l.size
    && forall i :: 0 <= i < |bs| ==> 0 <= bs[i] < size && !InLog(l, bs[i])
  }

  /** A disk whose header recovery can follow. */
  ghost predicate Recoverable(d: Image, l: Layout) {
    && l.start + l.size <= |d| && l.size > 0
    && HeaderOk(d[l.start]) && HomesOk(HomeBlocks(d[l.start]), l, |d|)
  }

  ghost function Homes(d: Image, l: Layout): seq<int>
    requires Recoverable(d, l)
  {
    HomeBlocks(d[l.start])
  }

  ghost function Logged(d: Image, l: Layout): (cs: seq<Block>)
    requires Recoverable(d, l)
    ensures |cs| == |Homes(d, l)|
  {
    seq(|Homes(d, l)|, i requires 0 <= i < |Homes(d, l)| => d[l.start + 1 + i])
  }

  lemma {:induction false} InstalledElsewhere(d: Image, bs: seq<int>, cs: seq<Block>, k: nat, b: nat)
    requires k <= |bs| == |cs| && (forall i :: 0 <= i < |bs| ==> 0 <= bs[i] < |d|) && b < |d|
    requires forall i :: 0 <= i < k ==> bs[i] != b
    ensures Installed(d, bs, cs, k)[b] == d[b]
  {
    if k != 0 {
      InstalledElsewhere(d, bs, cs, k - 1, b);
    }
  }

  /** Installing overwrites any difference at the homes. */
  lemma {:induction false} InstalledOver(d: Image, e: Image, bs: seq<int>, cs: seq<Block>, k: nat, b: nat)
    requires k <= |bs| == |cs| && |d| == |e| && (forall i :: 0 <= i < |bs| ==> 0 <= bs[i] < |d|) && b < |d|
    requires d[b] == e[b] || exists i :: 0 <= i < k && bs[i] == b
    ensures Installed(d, bs, cs, k)[b] == Installed(e, bs, cs, k)[b]
  {
    if k != 0 && bs[k - 1] != b {
      InstalledOver(d, e, bs, cs, k - 1, b);
    }
  }

  // ----- Recovery

  /** What recover_from_log leaves. */
  ghost function Recovered(d: Image, l: Layout): (r: Image)
    requires Recoverable(d, l)
    ensures |r| == |d|
  {
    Installed(d, Homes(d, l), Logged(d, l), |Homes(d, l)|)[l.start := EncodedHeader(d[l.start], [])]
  }

  /** The disk after each write of recover_from_log. */
  ghost function RecoverStates(d: Image, l: Layout): (s: seq<Image>)
    requires Recoverable(d, l)
    ensures |s| == |Homes(d, l)| + 1
  {
    seq(|Homes(d, l)|, k requires 0 <= k < |Homes(d, l)| => Installed(d, Homes(d, l), Logged(d, l), k + 1)) + [Recovered(d, l)]
  }

  /** Equal outside the log. */
  ghost predicate SameHome(d: Image, e: Image, l: Layout) {
    |d| == |e| && forall b :: 0 <= b < |d| && !InLog(l, b) ==> d[b] == e[b]
  }

  /** Installing only some of the homes, or none, leaves what the log says intact. */
  lemma PartlyInstalled(d: Image, l: Layout, k: nat)
    requires Recoverable(d, l) && k <= |Homes(d, l)|
    ensures var e := Installed(d, Homes(d, l), Logged(d, l), k);
      Recoverable(e, l) && Homes(e, l) == Homes(d, l) && Logged(e, l) == Logged(d, l)
  {
    var bs, cs := Homes(d, l), Logged(d, l);
    var e := Installed(d, bs, cs, k);
    forall b | l.start <= b < l.start + l.size
      ensures e[b] == d[b]
    {
      InstalledElsewhere(d, bs, cs, k, b);
    }
    assert e[l.start] == d[l.start];
    assert Logged(e, l) == Logged(d, l);
  }

  lemma ReinstalledSame(d: Image, l: Layout, k: nat, b: nat)
    requires Recoverable(d, l) && k <= |Homes(d, l)| && b < |d|
    ensures var bs, cs := Homes(d, l), Logged(d, l);
      Installed(Installed(d, bs, cs, k), bs, cs, |bs|)[b] == Installed(d, bs, cs, |bs|)[b]
  {
    var bs, cs := Homes(d, l), Logged(d, l);
    if exists i :: 0 <= i < k && bs[i] == b {
      InstalledOver(Installed(d, bs, cs, k), d, bs, cs, |bs|, b);
    } else {
      InstalledElsewhere(d, bs, cs, k, b);
      InstalledOver(Installed(d, bs, cs, k), d, bs, cs, |bs|, b);
    }
  }

  /** A crash during installation loses nothing: recovering again ends in the same state. */
  lemma RecoverAgain(d: Image, l: Layout, k: nat)
    requires Recoverable(d, l) && k <= |Homes(d, l)|
    ensures var e := Installed(d, Homes(d, l), Logged(d, l), k);
      Recoverable(e, l) && Recovered(e, l) == Recovered(d, l)
  {
    var bs, cs := Homes(d, l), Logged(d, l);
    var e := Installed(d, bs, cs, k);
    PartlyInstalled(d, l, k);
    InstalledElsewhere(d, bs, cs, k, l.start);
    forall b | 0 <= b < |d|
      ensures Recovered(e, l)[b] == Recovered(d, l)[b]
    {
      ReinstalledSame(d, l, k, b);
    }
  }

  /** After recovery the log is empty, and recovering once more changes nothing. */
  lemma RecoveredIsClean(d: Image, l: Layout)
    requires Recoverable(d, l)
    ensures Recoverable(Recovered(d, l), l) && Homes(Recovered(d, l), l) == []
    ensures Recovered(Recovered(d, l), l) == Recovered(d, l)
  {
    HeaderRoundTrip(d[l.start], []);
  }

  /** Every state of recovery recovers to the same disk. */
  lemma RecoverState(d: Image, l: Layout, e: Image)
    requires Recoverable(d, l) && e in RecoverStates(d, l)
    ensures Recoverable(e, l) && Recovered(e, l) == Recovered(d, l)
  {
    var k :| 0 <= k < |RecoverStates(d, l)| && RecoverStates(d, l)[k] == e;
    if k < |Homes(d, l)| {
      RecoverAgain(d, l, k + 1);
    } else {
      RecoveredIsClean(d, l);
    }
  }

  // ----- Any number of crashes

  /** Each disk is where a crash left the recovery of the one before: at its start, or after one of its writes. */
  ghost predicate CrashRun(run: seq<Image>, l: Layout) {
    && run != []
    && (forall i :: 0 <= i < |run| ==> Recoverable(run[i], l))
    && (forall i {:trigger run[i]} :: 0 < i < |run| ==> run[i] == run[i - 1] || run[i] in RecoverStates(run[i - 1], l))
  }

  lemma {:induction false} CrashRunRecovers(run: seq<Image>, l: Layout)
    requires CrashRun(run, l)
    ensures Recovered(run[|run| - 1], l) == Recovered(run[0], l)
  {
    var last := |run| - 1;
    if last > 0 {
      assert run[..last][last - 1] == run[last - 1] && Recoverable(run[last - 1], l);
      assert forall i {:trigger run[..last][i]} :: 0 <= i < last ==> run[..last][i] == run[i];
      hide Recovered, Recoverable, RecoverStates;
      CrashRunRecovers(run[..last], l);
      if run[last] != run[last - 1] {
        RecoverState(run[last - 1], l, run[last]);
      }
    }
  }

  // ----- Commit

  /** The disk with everything logged and the header naming it: the commit point. */
  ghost function Committed(d: Image, l: Layout, bs: seq<int>, cs: seq<Block>): (r: Image)
    requires |bs| == |cs| <= LOGSIZE && |cs| < l.size && l.start + l.size <= |d| && |d[l.start]| == WORDS
    ensures |r| == |d|
  {
    LogWritten(d, l, cs, |cs|)[l.start := EncodedHeader(d[l.start], bs)]
  }

  ghost predicate Committable(d: Image, l: Layout, bs: seq<int>, cs: seq<Block>) {
    && Recoverable(d, l) && Homes(d, l) == []
    && |bs| == |cs| && HomesOk(bs, l, |d|)
  }

  /** The disk after each write of commit, for contents cs of the blocks bs. */
  ghost function CommitStates(d: Image, l: Layout, bs: seq<int>, cs: seq<Block>): (s: seq<Image>)
    requires Committable(d, l, bs, cs)
    ensures |s| == 2 * |bs| + 2
  {
    var c := Committed(d, l, bs, cs);
    LogStates(d, l, cs, |cs|) + [c] + InstallStates(c, bs, cs, |bs|) + [Installed(c, bs, cs, |bs|)[l.start := EncodedHeader(c[l.start], [])]]
  }

  ghost function LogStates(d: Image, l: Layout, cs: seq<Block>, k: nat): (s: seq<Image>)
    requires k <= |cs| < l.size && l.start + l.size <= |d|
    ensures |s| == k
  {
    seq(k, i requires 0 <= i < k => LogWritten(d, l, cs, i + 1))
  }

  ghost function InstallStates(d: Image, bs: seq<int>, cs: seq<Block>, k: nat): (s: seq<Image>)
    requires k <= |bs| == |cs| && forall i :: 0 <= i < |bs| ==> 0 <= bs[i] < |d|
    ensures |s| == k
  {
    seq(k, i requires 0 <= i < k => Installed(d, bs, cs, i + 1))
  }

  /** Writing the log touches nothing but the log, and leaves its header. */
  lemma {:induction false} LogWrittenAt(d: Image, l: Layout, cs: seq<Block>, k: nat, b: nat)
    requires k <= |cs| < l.size && l.start + l.size <= |d| && b < |d|
    ensures LogWritten(d, l, cs, k)[b] == if l.start < b <= l.start + k then cs[b - l.start - 1] else d[b]
  {
    if k != 0 {
      LogWrittenAt(d, l, cs, k - 1, b);
    }
  }

  /** Before the commit point a crash leaves the old contents. */
  lemma CrashBeforeCommit(d: Image, l: Layout, bs: seq<int>, cs: seq<Block>, k: nat)
    requires Committable(d, l, bs, cs) && k <= |cs|
    ensures var e := LogWritten(d, l, cs, k);
      Recoverable(e, l) && SameHome(Recovered(e, l), d, l)
  {
    var e := LogWritten(d, l, cs, k);
    forall b | 0 <= b < |d|
      ensures e[b] == if l.start < b <= l.start + k then cs[b - l.start - 1] else d[b]
    {
      LogWrittenAt(d, l, cs, k, b);
    }
    assert e[l.start] == d[l.start] && Homes(e, l) == [];
  }

  /** At the commit point the log holds exactly the transaction. */
  lemma CommitPoint(d: Image, l: Layout, bs: seq<int>, cs: seq<Block>)
    requires Committable(d, l, bs, cs)
    ensures var c := Committed(d, l, bs, cs);
      && Recoverable(c, l) && Homes(c, l) == bs && Logged(c, l) == cs
      && SameHome(c, d, l)
  {
    var c := Committed(d, l, bs, cs);
    HeaderRoundTrip(d[l.start], bs);
    forall b | 0 <= b < |d| && b != l.start
      ensures c[b] == if l.start < b <= l.start + |cs| then cs[b - l.start - 1] else d[b]
    {
      LogWrittenAt(d, l, cs, |cs|, b);
    }
    assert Logged(c, l) == cs;
  }

  /** From there on, the new contents: those of the transaction at its homes, the old ones elsewhere. */
  lemma CommittedRecovers(d: Image, l: Layout, bs: seq<int>, cs: seq<Block>)
    requires Committable(d, l, bs, cs)
    ensures Recoverable(Committed(d, l, bs, cs), l)
    ensures SameHome(Recovered(Committed(d, l, bs, cs), l), Installed(d, bs, cs, |bs|), l)
  {
    var c := Committed(d, l, bs, cs);
    CommitPoint(d, l, bs, cs);
    forall b | 0 <= b < |d| && !InLog(l, b)
      ensures Recovered(c, l)[b] == Installed(d, bs, cs, |bs|)[b]
    {
      InstalledOver(c, d, bs, cs, |bs|, b);
    }
  }

  lemma CrashAfterCommit(d: Image, l: Layout, bs: seq<int>, cs: seq<Block>, k: nat)
    requires Committable(d, l, bs, cs) && |bs| <= k < |CommitStates(d, l, bs, cs)|
    ensures var e := CommitStates(d, l, bs, cs)[k];
      && Recoverable(e, l)
      && SameHome(Recovered(e, l), Installed(d, bs, cs, |bs|), l)
  {
    var c, n := Committed(d, l, bs, cs), |bs|;
    var e := CommitStates(d, l, bs, cs)[k];
    CommittedRecovers(d, l, bs, cs);
    CommitPoint(d, l, bs, cs);
    if k == n {
      assert e == c;
    } else if k < 2 * n + 1 {
      assert e == Installed(c, bs, cs, k - n);
      hide *;
      RecoverAgain(c, l, k - n);
    } else {
      assert e == Recovered(c, l);
      hide *;
      RecoveredIsClean(c, l);
    }
  }

  /**
    Crash atomicity of commit: before its write number |bs|, the header, every
    state recovers to the old contents; from that write on, to the new ones.
   */
  lemma CommitCrash(d: Image, l: Layout, bs: seq<int>, cs: seq<Block>, k: nat)
    requires Committable(d, l, bs, cs) && k < |CommitStates(d, l, bs, cs)|
    ensures var e := CommitStates(d, l, bs, cs)[k];
      && Recoverable(e, l)
      && SameHome(Recovered(e, l), if k < |bs| then d else Installed(d, bs, cs, |bs|), l)
  {
    var c, n := Committed(d, l, bs, cs), |bs|;
    var e := CommitStates(d, l, bs, cs)[k];
    if k < n {
      assert e == LogWritten(d, l, cs, k + 1);
      hide *;
      CrashBeforeCommit(d, l, bs, cs, k + 1);
    } else {
      CrashAfterCommit(d, l, bs, cs, k);
    }
  }

  lemma SameHomeTransitive(a: Image, b: Image, c: Image, l: Layout)
    requires SameHome(a, b, l) && SameHome(b, c, l)
    ensures SameHome(a, c, l)
  {
  }

  /**
    A crash at any write of commit, or before the first, followed by any number
    of crashes in recovery: when recovery finishes, the home blocks hold all of
    the transaction or none of it, and the log is empty.
   */
  lemma AllOrNothing(d: Image, l: Layout, bs: seq<int>, cs: seq<Block>, run: seq<Image>)
    requires Committable(d, l, bs, cs) && CrashRun(run, l)
    requires run[0] == d || run[0] in CommitStates(d, l, bs, cs)
    ensures var end := Recovered(run[|run| - 1], l);
      && (SameHome(end, d, l) || SameHome(end, Installed(d, bs, cs, |bs|), l))
      && Recoverable(end, l) && Homes(end, l) == []
  {
    CrashRunRecovers(run, l);
    RecoveredIsClean(run[|run| - 1], l);
    if run[0] == d {
      CrashBeforeCommit(d, l, bs, cs, 0);
    } else {
      var k :| 0 <= k < |CommitStates(d, l, bs, cs)| && CommitStates(d, l, bs, cs)[k] == run[0];
      CommitCrash(d, l, bs, cs, k);
    }
  }

  /** Once the header has been written nothing can undo the transaction. */
  lemma Durable(d: Image, l: Layout, bs: seq<int>, cs: seq<Block>, k: nat, run: seq<Image>)
    requires Committable(d, l, bs, cs) && CrashRun(run, l)
    requires |bs| <= k < |CommitStates(d, l, bs, cs)| && run[0] == CommitStates(d, l, bs, cs)[k]
    ensures SameHome(Recovered(run[|run| - 1], l), Installed(d, bs, cs, |bs|), l)
  {
    CrashRunRecovers(run, l);
    CommitCrash(d, l, bs, cs, k);
  }
}
