/** The doubly linked list of buffers in operating-systems/xv6-OS/bio.c, by buffer number. */
module BufferList {

  const NBUF := 30
  /** The number of the list's head, which is not a buffer. */
  const HEAD := NBUF

  /** Position k of the circular list: the head stands before the first and after the last. */
  ghost function At(order: seq<int>, k: int): int
    requires -1 <= k <= |order|
  {
    if 0 <= k < |order| then order[k] else HEAD
  }

  ghost predicate Sized(prev: seq<int>, next: seq<int>) {
    |prev| == |next| == NBUF + 1
  }

  ghost predicate Members(order: seq<int>) {
    && (forall k :: 0 <= k < |order| ==> 0 <= order[k] < NBUF)
    && (forall j, k :: 0 <= j < k < |order| ==> order[j] != order[k])
  }

  /** next leads along the order and back to the head, and prev leads back. */
  ghost predicate Linked(prev: seq<int>, next: seq<int>, order: seq<int>)
    requires Sized(prev, next)
  {
    && Members(order)
    && (forall k {:trigger LinkAt(prev, next, order, k)} :: -1 <= k < |order| ==> LinkAt(prev, next, order, k))
  }

  ghost predicate LinkAt(prev: seq<int>, next: seq<int>, order: seq<int>, k: int)
    requires Sized(prev, next) && Members(order) && -1 <= k < |order|
  {
    next[At(order, k)] == At(order, k + 1) && prev[At(order, k + 1)] == At(order, k)
  }

  ghost function Removed(order: seq<int>, p: int): seq<int>
    requires 0 <= p < |order|
  {
    order[..p] + order[p + 1..]
  }

  /** b has come to the front, and the others stand in their old order behind it. */
  ghost predicate Fronted(was: seq<int>, now: seq<int>, b: int) {
    exists p :: FrontedFrom(was, now, b, p)
  }

  ghost predicate FrontedFrom(was: seq<int>, now: seq<int>, b: int, p: int) {
    0 <= p < |was| && was[p] == b && now == [b] + was[..p] + was[p + 1..]
  }

  lemma MembersRemoved(order: seq<int>, p: int)
    requires Members(order) && 0 <= p < |order|
    ensures Members(Removed(order, p))
  {
  }

  lemma AtRemoved(order: seq<int>, p: int, k: int)
    requires 0 <= p < |order| && -1 <= k < |order|
    ensures At(Removed(order, p), k) == At(order, if k < p then k else k + 1)
  {
  }

  lemma AtDiffers(order: seq<int>, j: int, k: int)
    requires Members(order) && -1 <= j < |order| && -1 <= k < |order| && j != k
    ensures At(order, j) != At(order, k) && At(order, j + 1) != At(order, k + 1)
  {
  }

  /** Unlinking the buffer at position p: its neighbours are joined. */
  lemma Unlink(prev: seq<int>, next: seq<int>, order: seq<int>, p: int)
    requires Sized(prev, next) && Linked(prev, next, order) && 0 <= p < |order|
    ensures var b := order[p];
      0 <= next[b] <= NBUF && 0 <= prev[b] <= NBUF
      && Linked(prev[next[b] := prev[b]], next[prev[b] := next[b]], Removed(order, p))
  {
    var b := order[p];
    MembersRemoved(order, p);
    assert LinkAt(prev, next, order, p - 1) && LinkAt(prev, next, order, p);
    assert At(order, p) == b && At(order, p - 1) == prev[b] && At(order, p + 1) == next[b];
    var q, n, r := prev[next[b] := prev[b]], next[prev[b] := next[b]], Removed(order, p);
    forall k {:trigger LinkAt(q, n, r, k)} | -1 <= k < |r|
      ensures LinkAt(q, n, r, k)
    {
      AtRemoved(order, p, k);
      AtRemoved(order, p, k + 1);
      var j := if k < p then k else k + 1;
      assert LinkAt(prev, next, order, j);
      if j == p - 1 {
        assert At(r, k) == At(order, p - 1) && At(r, k + 1) == At(order, p + 1);
      } else {
        assert At(r, k + 1) == At(order, j + 1);
        AtDiffers(order, j, p - 1);
        AtDiffers(order, j, p);
      }
    }
  }

  /** Linking buffer b in right after the head. */
  lemma PushFront(prev: seq<int>, next: seq<int>, order: seq<int>, b: int)
    requires Sized(prev, next) && Linked(prev, next, order) && 0 <= b < NBUF && b !in order
    ensures 0 <= next[HEAD] <= NBUF
      && Linked(prev[b := HEAD][next[HEAD] := b], next[b := next[HEAD]][HEAD := b], [b] + order)
  {
    assert At(order, -1) == HEAD && LinkAt(prev, next, order, -1);
    var f := next[HEAD];
    var q, n, r := prev[b := HEAD][f := b], next[b := f][HEAD := b], [b] + order;
    forall k {:trigger LinkAt(q, n, r, k)} | -1 <= k < |r|
      ensures LinkAt(q, n, r, k)
    {
      if k > 0 {
        assert At(r, k) == At(order, k - 1) && At(r, k + 1) == At(order, k);
        assert LinkAt(prev, next, order, k - 1);
        AtDiffers(order, k - 1, -1);
      }
    }
  }
}
