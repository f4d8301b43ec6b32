/**
  A disk over its whole life (operating-systems/xv6-OS/log.c): one transaction
  after the other, each committed or cut off by a crash, and after a crash any
  number of crashes in recovery. All or nothing, for every transaction.
 */
module LogLives {
  import opened BufferCache
  import opened CrashModel

  /** The contents that a transaction gives its home blocks. */
  datatype Transaction = Transaction(bs: seq<int>, cs: seq<Block>)

  ghost predicate Fits(d: Image, t: Transaction) {
    |t.bs| == |t.cs| && forall i :: 0 <= i < |t.bs| ==> 0 <= t.bs[i] < |d|
  }

  ghost function Apply(d: Image, t: Transaction): (r: Image)
    ensures |r| == |d|
  {
    if Fits(d, t) then Installed(d, t.bs, t.cs, |t.bs|) else d
  }

  /** The chosen transactions, one after the other. */
  ghost function Replay(d: Image, ts: seq<Transaction>, kept: seq<bool>): (r: Image)
    requires |kept| <= |ts|
    ensures |r| == |d|
  {
    if kept == [] then d
    else
      var k := |kept| - 1;
      var e := Replay(d, ts, kept[..k]);
      if kept[k] then Apply(e, ts[k]) else e
  }

  /** commit ran to its end. */
  ghost predicate Completed(d: Image, l: Layout, t: Transaction, e: Image)
    requires Committable(d, l, t.bs, t.cs)
  {
    Recoverable(Committed(d, l, t.bs, t.cs), l) && e == Recovered(Committed(d, l, t.bs, t.cs), l)
  }

  /** A crash before the first or after any write of commit, and recovery, with any crashes in it, up to its end. */
  ghost predicate Interrupted(d: Image, l: Layout, t: Transaction, run: seq<Image>, e: Image)
    requires Committable(d, l, t.bs, t.cs)
  {
    CrashRun(run, l) && (run[0] == d || run[0] in CommitStates(d, l, t.bs, t.cs)) && e == Recovered(run[|run| - 1], l)
  }

  ghost predicate Attempt(d: Image, l: Layout, t: Transaction, done: bool, e: Image) {
    Committable(d, l, t.bs, t.cs) && if done then Completed(d, l, t, e) else exists run :: Interrupted(d, l, t, run, e)
  }

  ghost predicate AttemptAt(images: seq<Image>, l: Layout, ts: seq<Transaction>, done: seq<bool>, i: nat)
    requires i < |ts| == |done| && i + 1 < |images|
  {
    Attempt(images[i], l, ts[i], done[i], images[i + 1])
  }

  /** images[i] is the disk when transaction i begins; done says which were committed without a crash. */
  ghost predicate Life(images: seq<Image>, l: Layout, ts: seq<Transaction>, done: seq<bool>) {
    && |images| == |ts| + 1 && |done| == |ts| && Recoverable(images[0], l) && Homes(images[0], l) == []
    && forall i {:trigger AttemptAt(images, l, ts, done, i)} :: 0 <= i < |ts| ==> AttemptAt(images, l, ts, done, i)
  }

  /** One attempt has all of its effect on the home blocks or none, and all if commit returned. */
  lemma AttemptIsAtomic(d: Image, l: Layout, t: Transaction, done: bool, e: Image) returns (kept: bool)
    requires Attempt(d, l, t, done, e)
    ensures (done ==> kept) && SameHome(e, if kept then Apply(d, t) else d, l)
    ensures Recoverable(e, l) && Homes(e, l) == []
  {
    if done {
      CommittedRecovers(d, l, t.bs, t.cs);
      RecoveredIsClean(Committed(d, l, t.bs, t.cs), l);
      kept := true;
    } else {
      var run :| Interrupted(d, l, t, run, e);
      AllOrNothing(d, l, t.bs, t.cs, run);
      kept := !SameHome(e, d, l);
    }
  }

  lemma {:induction false} InstalledSameHome(d: Image, e: Image, l: Layout, bs: seq<int>, cs: seq<Block>, k: nat)
    requires k <= |bs| == |cs| && |d| == |e| && (forall i :: 0 <= i < |bs| ==> 0 <= bs[i] < |d|) && SameHome(d, e, l)
    ensures SameHome(Installed(d, bs, cs, k), Installed(e, bs, cs, k), l)
  {
    if k != 0 {
      InstalledSameHome(d, e, l, bs, cs, k - 1);
    }
  }

  /**
    All or nothing, always: what the home blocks hold is what some of the
    transactions, in their order and each as a whole, make of the first disk;
    every transaction whose commit returned is among them.
   */
  lemma {:induction false} LifeIsSerial(images: seq<Image>, l: Layout, ts: seq<Transaction>, done: seq<bool>, i: nat) returns (kept: seq<bool>)
    requires Life(images, l, ts, done) && i < |images|
    ensures |kept| == i && (forall j :: 0 <= j < i && done[j] ==> kept[j])
    ensures SameHome(images[i], Replay(images[0], ts, kept), l)
    ensures Recoverable(images[i], l) && Homes(images[i], l) == []
  {
    if i == 0 {
      kept := [];
    } else {
      var was := LifeIsSerial(images, l, ts, done, i - 1);
      assert AttemptAt(images, l, ts, done, i - 1);
      var d, e, t := images[i - 1], Replay(images[0], ts, was), ts[i - 1];
      hide Recoverable, Homes, Committable, Attempt;
      var k := AttemptIsAtomic(d, l, t, done[i - 1], images[i]);
      kept := was + [k];
      assert kept[..i - 1] == was;
      if k {
        AppliedSameHome(d, e, l, t);
        SameHomeTransitive(images[i], Apply(d, t), Apply(e, t), l);
      } else {
        SameHomeTransitive(images[i], d, e, l);
      }
    }
  }

  lemma AppliedSameHome(d: Image, e: Image, l: Layout, t: Transaction)
    requires SameHome(d, e, l)
    ensures SameHome(Apply(d, t), Apply(e, t), l)
  {
    if Fits(d, t) {
      InstalledSameHome(d, e, l, t.bs, t.cs, |t.bs|);
    }
  }

  /** So what every transaction preserves of the home blocks it is made for, say that a file system is consistent, holds after every crash. */
  lemma {:induction false} ConsistencySurvives(images: seq<Image>, l: Layout, ts: seq<Transaction>, done: seq<bool>, i: nat, ok: iset<Image>)
    requires Life(images, l, ts, done) && i < |images| && images[0] in ok
    requires forall d, e :: SameHome(d, e, l) && e in ok ==> d in ok
    requires forall j {:trigger ts[j]} :: 0 <= j < |ts| && images[j] in ok ==> Apply(images[j], ts[j]) in ok
    ensures images[i] in ok
  {
    if i != 0 {
      ConsistencySurvives(images, l, ts, done, i - 1, ok);
      assert AttemptAt(images, l, ts, done, i - 1);
      var d := images[i - 1];
      hide Attempt;
      var k := AttemptIsAtomic(d, l, ts[i - 1], done[i - 1], images[i]);
      assert Apply(d, ts[i - 1]) in ok;
    }
  }
}
