/**
  The free list of operating-systems/xv6-OS/umalloc.c as values: a ring of blocks
  in the order of their addresses, counted in units of one header. A hole is a
  position whose link has not been set yet.
 */
module FreeLists {

  /** The header fields, by address. */
  type Words = map<int, int>

  ghost predicate Known(order: seq<int>, w: Words) {
    forall j :: 0 <= j < |order| ==> order[j] in w
  }

  ghost function After(order: seq<int>, j: int): int
    requires 0 <= j < |order|
  {
    if j + 1 < |order| then order[j + 1] else order[0]
  }

  ghost predicate LinkAt(order: seq<int>, ptr: Words, j: int)
    requires 0 <= j < |order|
  {
    order[j] in ptr && ptr[order[j]] == After(order, j)
  }

  ghost predicate Ring(order: seq<int>, ptr: Words, hole: int) {
    order != [] && forall j {:trigger LinkAt(order, ptr, j)} :: 0 <= j < |order| && j != hole ==> LinkAt(order, ptr, j)
  }

  ghost predicate GapAt(order: seq<int>, size: Words, j: int, hole: int)
    requires 0 <= j < |order| - 1
  {
    order[j] in size && (if j == hole then order[j] + size[order[j]] <= order[j + 1] else order[j] + size[order[j]] < order[j + 1])
  }

  /** Sorted, apart, and never adjacent (but at the hole); only the first block, the base, is empty. */
  ghost predicate Spaced(order: seq<int>, size: Words, hole: int) {
    && order != [] && Known(order, size) && size[order[0]] == 0
    && (forall j {:trigger order[j]} :: 0 < j < |order| ==> size[order[j]] > 0)
    && forall j {:trigger GapAt(order, size, j, hole)} :: 0 <= j < |order| - 1 ==> GapAt(order, size, j, hole)
  }

  ghost predicate In(u: int, b: int, n: int) { b <= u < b + n }

  /** Unit u is in a free block. */
  ghost predicate IsFree(order: seq<int>, size: Words, u: int)
    requires Known(order, size)
  {
    exists j :: 0 <= j < |order| && In(u, order[j], size[order[j]])
  }

  lemma {:induction false} Sorted(order: seq<int>, size: Words, hole: int, i: int, j: int)
    requires Spaced(order, size, hole) && 0 <= i < j < |order|
    ensures order[i] + size[order[i]] <= order[j] && order[i] < order[j]
  {
    assert GapAt(order, size, j - 1, hole);
    if i < j - 1 {
      Sorted(order, size, hole, i, j - 1);
      assert size[order[j - 1]] > 0;
    } else if i == 0 {
      if order[0] == order[j] {
        BaseApart(order, size, hole);
      }
    }
  }

  lemma BaseApart(order: seq<int>, size: Words, hole: int)
    requires Spaced(order, size, hole) && |order| > 1
    ensures order[0] != order[1]
  {
  }

  ghost function Inserted(order: seq<int>, i: nat, b: int): seq<int>
    requires i < |order|
  {
    order[..i + 1] + [b] + order[i + 1..]
  }

  ghost function Dropped(order: seq<int>, k: nat): seq<int>
    requires k < |order|
  {
    order[..k] + order[k + 1..]
  }

  /** Block b lies between blocks i and i + 1. */
  ghost predicate Between(order: seq<int>, size: Words, i: int, b: int)
    requires 0 <= i < |order|
  {
    && b in size && b !in order && size[b] > 0
    && order[i] in size && order[i] < b && order[i] + size[order[i]] <= b
    && (i + 1 < |order| ==> b + size[b] <= order[i + 1])
  }

  // ----- free: the first if

  /** Not adjacent to the block above: b goes in before it. */
  lemma InsertedBelow(order: seq<int>, ptr: Words, size: Words, i: nat, b: int)
    requires i < |order| && Ring(order, ptr, -1) && Spaced(order, size, -1) && Between(order, size, i, b)
    requires b + size[b] != After(order, i)
    ensures var o := Inserted(order, i, b);
      && Ring(o, ptr[b := After(order, i)], i) && Spaced(o, size, i)
      && forall u :: IsFree(o, size, u) <==> IsFree(order, size, u) || In(u, b, size[b])
  {
    var o, q := Inserted(order, i, b), ptr[b := After(order, i)];
    forall j {:trigger LinkAt(o, q, j)} | 0 <= j < |o| && j != i
      ensures LinkAt(o, q, j)
    {
      assert j < i ==> LinkAt(order, ptr, j);
      assert j > i + 1 ==> LinkAt(order, ptr, j - 1);
    }
    forall j {:trigger GapAt(o, size, j, i)} | 0 <= j < |o| - 1
      ensures GapAt(o, size, j, i)
    {
      assert j < i ==> GapAt(order, size, j, -1);
      assert j > i + 1 ==> GapAt(order, size, j - 1, -1);
    }
    forall u
      ensures IsFree(o, size, u) <==> IsFree(order, size, u) || In(u, b, size[b])
    {
      InsertedUnits(order, size, i, b, u);
    }
  }

  lemma InsertedUnits(order: seq<int>, size: Words, i: nat, b: int, u: int)
    requires i < |order| && Known(order, size) && b in size
    ensures Known(Inserted(order, i, b), size)
    ensures IsFree(Inserted(order, i, b), size, u) <==> IsFree(order, size, u) || In(u, b, size[b])
  {
    var o := Inserted(order, i, b);
    if IsFree(order, size, u) {
      var j :| 0 <= j < |order| && In(u, order[j], size[order[j]]);
      assert o[if j <= i then j else j + 1] == order[j];
    }
    if In(u, b, size[b]) {
      assert o[i + 1] == b;
    }
  }

  /** Adjacent to the block above: b takes it in. */
  lemma TookAbove(order: seq<int>, ptr: Words, size: Words, i: nat, b: int)
    requires i < |order| && Ring(order, ptr, -1) && Spaced(order, size, -1) && Between(order, size, i, b)
    requires b + size[b] == After(order, i)
    ensures i + 1 < |order| && order[i + 1] in ptr
    ensures var c := order[i + 1];
      var o, q, s := order[i + 1 := b], ptr[b := ptr[c]], size[b := size[b] + size[c]];
      && Ring(o, q, i) && Spaced(o, s, i)
      && forall u :: IsFree(o, s, u) <==> IsFree(order, size, u) || In(u, b, size[b])
  {
    if i > 0 {
      Sorted(order, size, -1, 0, i);
    }
    var c := order[i + 1];
    assert LinkAt(order, ptr, i + 1);
    var o, q, s := order[i + 1 := b], ptr[b := ptr[c]], size[b := size[b] + size[c]];
    forall j {:trigger LinkAt(o, q, j)} | 0 <= j < |o| && j != i
      ensures LinkAt(o, q, j)
    {
      assert LinkAt(order, ptr, j);
    }
    forall j {:trigger GapAt(o, s, j, i)} | 0 <= j < |o| - 1
      ensures GapAt(o, s, j, i)
    {
      assert GapAt(order, size, j, -1);
    }
    forall j | 0 <= j < |order| && j != i + 1
      ensures order[j] != c
    {
      if j < i + 1 {
        Sorted(order, size, -1, j, i + 1);
      } else {
        Sorted(order, size, -1, i + 1, j);
      }
    }
    forall u
      ensures IsFree(o, s, u) <==> IsFree(order, size, u) || In(u, b, size[b])
    {
      TookUnits(order, size, i + 1, b, u);
    }
  }

  lemma TookUnits(order: seq<int>, size: Words, k: nat, b: int, u: int)
    requires k < |order| && Known(order, size) && b in size && b !in order && b + size[b] == order[k]
    requires size[b] >= 0 && size[order[k]] >= 0
    requires forall j :: 0 <= j < |order| && j != k ==> order[j] != order[k]
    ensures var o, s := order[k := b], size[b := size[b] + size[order[k]]];
      Known(o, s) && (IsFree(o, s, u) <==> IsFree(order, size, u) || In(u, b, size[b]))
  {
    var o, s := order[k := b], size[b := size[b] + size[order[k]]];
    if IsFree(order, size, u) {
      var j :| 0 <= j < |order| && In(u, order[j], size[order[j]]);
      assert In(u, o[j], s[o[j]]);
    }
    if In(u, b, size[b]) {
      assert In(u, o[k], s[o[k]]);
    }
    if IsFree(o, s, u) {
      var j :| 0 <= j < |o| && In(u, o[j], s[o[j]]);
      if j == k {
        assert In(u, b, size[b]) || In(u, order[k], size[order[k]]);
      } else {
        assert In(u, order[j], size[order[j]]);
      }
    }
  }

  // ----- free: the second if

  /** Not adjacent to the block below: it is linked to b. */
  lemma LinkedBelow(order: seq<int>, ptr: Words, size: Words, i: nat)
    requires i + 1 < |order| && Ring(order, ptr, i) && Spaced(order, size, i)
    requires order[i] + size[order[i]] != order[i + 1]
    ensures Ring(order, ptr[order[i] := order[i + 1]], -1) && Spaced(order, size, -1)
  {
    var q := ptr[order[i] := order[i + 1]];
    forall j {:trigger LinkAt(order, q, j)} | 0 <= j < |order|
      ensures LinkAt(order, q, j)
    {
      if j < i {
        Sorted(order, size, i, j, i);
      } else if j > i {
        Sorted(order, size, i, i, j);
      }
      assert j != i ==> LinkAt(order, ptr, j);
    }
    forall j {:trigger GapAt(order, size, j, -1)} | 0 <= j < |order| - 1
      ensures GapAt(order, size, j, -1)
    {
      assert GapAt(order, size, j, i);
    }
  }

  /** Adjacent to the block below: that takes in b. */
  lemma TakenBelow(order: seq<int>, ptr: Words, size: Words, i: nat)
    requires 0 < i && i + 1 < |order| && Ring(order, ptr, i) && Spaced(order, size, i)
    requires order[i] + size[order[i]] == order[i + 1]
    ensures order[i + 1] in ptr
    ensures var p, b := order[i], order[i + 1];
      var o, q, s := Dropped(order, i + 1), ptr[p := ptr[b]], size[p := size[p] + size[b]];
      && Ring(o, q, -1) && Spaced(o, s, -1)
      && forall u :: IsFree(o, s, u) <==> IsFree(order, size, u)
  {
    var p, b := order[i], order[i + 1];
    assert LinkAt(order, ptr, i + 1);
    var o, q, s := Dropped(order, i + 1), ptr[p := ptr[b]], size[p := size[p] + size[b]];
    forall j | 0 <= j < |order| && j != i
      ensures order[j] != p
    {
      if j < i {
        Sorted(order, size, i, j, i);
      } else {
        Sorted(order, size, i, i, j);
      }
    }
    forall j {:trigger LinkAt(o, q, j)} | 0 <= j < |o|
      ensures LinkAt(o, q, j)
    {
      assert j < i ==> LinkAt(order, ptr, j);
      assert j > i ==> LinkAt(order, ptr, j + 1);
    }
    forall j {:trigger GapAt(o, s, j, -1)} | 0 <= j < |o| - 1
      ensures GapAt(o, s, j, -1)
    {
      assert j < i ==> GapAt(order, size, j, i);
      assert j >= i ==> GapAt(order, size, j + 1, i);
    }
    forall u
      ensures IsFree(o, s, u) <==> IsFree(order, size, u)
    {
      TakenUnits(order, size, i, u);
    }
  }

  lemma TakenUnits(order: seq<int>, size: Words, i: nat, u: int)
    requires i + 1 < |order| && Known(order, size) && order[i] + size[order[i]] == order[i + 1]
    requires size[order[i]] >= 0 && size[order[i + 1]] >= 0
    requires forall j :: 0 <= j < |order| && j != i ==> order[j] != order[i]
    ensures var o, s := Dropped(order, i + 1), size[order[i] := size[order[i]] + size[order[i + 1]]];
      Known(o, s) && (IsFree(o, s, u) <==> IsFree(order, size, u))
  {
    var o, s := Dropped(order, i + 1), size[order[i] := size[order[i]] + size[order[i + 1]]];
    if IsFree(order, size, u) {
      var j :| 0 <= j < |order| && In(u, order[j], size[order[j]]);
      var k := if j <= i then j else j - 1;
      assert In(u, o[k], s[o[k]]);
    }
    if IsFree(o, s, u) {
      var j :| 0 <= j < |o| && In(u, o[j], s[o[j]]);
      if j == i {
        assert In(u, order[i], size[order[i]]) || In(u, order[i + 1], size[order[i + 1]]);
      } else {
        var k := if j <= i then j else j + 1;
        assert In(u, order[k], size[order[k]]);
      }
    }
  }

  // ----- malloc: taking from a block

  /** A block that fits exactly leaves the list. */
  lemma TakenWhole(order: seq<int>, ptr: Words, size: Words, k: nat)
    requires 0 < k < |order| && Ring(order, ptr, -1) && Spaced(order, size, -1)
    ensures order[k] in ptr
    ensures var p := order[k];
      var o, q := Dropped(order, k), ptr[order[k - 1] := ptr[p]];
      && Ring(o, q, -1) && Spaced(o, size, -1)
      && forall u :: IsFree(o, size, u) <==> IsFree(order, size, u) && !In(u, p, size[p])
  {
    var p := order[k];
    assert LinkAt(order, ptr, k) && LinkAt(order, ptr, k - 1);
    var o, q := Dropped(order, k), ptr[order[k - 1] := ptr[p]];
    forall j | 0 <= j < |order| && j != k - 1
      ensures order[j] != order[k - 1]
    {
      if j < k - 1 {
        Sorted(order, size, -1, j, k - 1);
      } else {
        Sorted(order, size, -1, k - 1, j);
      }
    }
    forall j {:trigger LinkAt(o, q, j)} | 0 <= j < |o|
      ensures LinkAt(o, q, j)
    {
      assert j < k - 1 ==> LinkAt(order, ptr, j);
      assert j > k - 1 ==> LinkAt(order, ptr, j + 1);
    }
    forall j {:trigger GapAt(o, size, j, -1)} | 0 <= j < |o| - 1
      ensures GapAt(o, size, j, -1)
    {
      assert j < k - 1 ==> GapAt(order, size, j, -1);
      assert j > k - 1 ==> GapAt(order, size, j + 1, -1);
      if j == k - 1 {
        assert GapAt(order, size, k - 1, -1) && GapAt(order, size, k, -1);
      }
    }
    forall u
      ensures IsFree(o, size, u) <==> IsFree(order, size, u) && !In(u, p, size[p])
    {
      WholeUnits(order, size, k, u);
    }
  }

  lemma WholeUnits(order: seq<int>, size: Words, k: nat, u: int)
    requires 0 < k < |order| && Spaced(order, size, -1)
    ensures Known(Dropped(order, k), size)
    ensures IsFree(Dropped(order, k), size, u) <==> IsFree(order, size, u) && !In(u, order[k], size[order[k]])
  {
    var o := Dropped(order, k);
    if IsFree(order, size, u) && !In(u, order[k], size[order[k]]) {
      var j :| 0 <= j < |order| && In(u, order[j], size[order[j]]);
      assert In(u, o[if j < k then j else j - 1], size[o[if j < k then j else j - 1]]);
    }
    if IsFree(o, size, u) {
      var j :| 0 <= j < |o| && In(u, o[j], size[o[j]]);
      var i := if j < k then j else j + 1;
      assert order[i] == o[j];
      if i < k {
        Sorted(order, size, -1, i, k);
      } else {
        Sorted(order, size, -1, k, i);
      }
    }
  }

  /** A larger block gives its tail, which gets a header of its own. */
  lemma TakenTail(order: seq<int>, ptr: Words, size: Words, k: nat, n: int)
    requires 0 < k < |order| && Ring(order, ptr, -1) && Spaced(order, size, -1) && 0 < n < size[order[k]]
    ensures var p := order[k];
      var t := p + size[p] - n;
      var s := size[p := size[p] - n][t := n];
      && t !in order
      && Spaced(order, s, -1)
      && forall u :: IsFree(order, s, u) <==> IsFree(order, size, u) && !In(u, t, n)
  {
    var p := order[k];
    var t := p + size[p] - n;
    var s := size[p := size[p] - n][t := n];
    forall j | 0 <= j < |order|
      ensures order[j] != t && (j != k ==> order[j] != p)
    {
      if j < k {
        Sorted(order, size, -1, j, k);
      } else if j > k {
        Sorted(order, size, -1, k, j);
      }
    }
    forall j {:trigger GapAt(order, s, j, -1)} | 0 <= j < |order| - 1
      ensures GapAt(order, s, j, -1)
    {
      assert GapAt(order, size, j, -1);
    }
    forall u
      ensures IsFree(order, s, u) <==> IsFree(order, size, u) && !In(u, t, n)
    {
      TailUnits(order, size, s, k, n, u);
    }
  }

  lemma TailUnits(order: seq<int>, size: Words, s: Words, k: nat, n: int, u: int)
    requires 0 < k < |order| && Spaced(order, size, -1) && 0 < n < size[order[k]] && Known(order, s)
    requires forall j :: 0 <= j < |order| ==> s[order[j]] == if j == k then size[order[k]] - n else size[order[j]]
    ensures IsFree(order, s, u) <==> IsFree(order, size, u) && !In(u, order[k] + size[order[k]] - n, n)
  {
    if IsFree(order, s, u) {
      var j :| 0 <= j < |order| && In(u, order[j], s[order[j]]);
      assert In(u, order[j], size[order[j]]);
      if j < k {
        Sorted(order, size, -1, j, k);
      } else if j > k {
        Sorted(order, size, -1, k, j);
      }
    }
    if IsFree(order, size, u) && !In(u, order[k] + size[order[k]] - n, n) {
      var j :| 0 <= j < |order| && In(u, order[j], size[order[j]]);
      assert In(u, order[j], s[order[j]]);
    }
  }

  // ----- The whole heap

  ghost predicate LivesKnown(live: set<int>, size: Words, base: int) {
    forall b :: b in live ==> b in size && size[b] > 0 && b > base
  }

  ghost predicate IsLive(live: set<int>, size: Words, u: int)
    requires forall b :: b in live ==> b in size
  {
    exists b :: b in live && In(u, b, size[b])
  }

  /** A unit is in at most one live block. */
  ghost predicate OneBlock(live: set<int>, size: Words)
    requires forall b :: b in live ==> b in size
  {
    forall u, b, c {:trigger In(u, b, size[b]), In(u, c, size[c])} :: b in live && c in live && In(u, b, size[b]) && In(u, c, size[c]) ==> b == c
  }

  /**
    The free list is one sorted ring through the base, fully coalesced, and every
    unit obtained from the system is in exactly one free or live block.
   */
  ghost predicate HeapOk(base: int, order: seq<int>, ptr: Words, size: Words, live: set<int>, core: iset<int>) {
    && Ring(order, ptr, -1) && Spaced(order, size, -1) && order[0] == base
    && LivesKnown(live, size, base) && OneBlock(live, size)
    && (forall u {:trigger IsFree(order, size, u)} {:trigger IsLive(live, size, u)} :: !(IsFree(order, size, u) && IsLive(live, size, u)))
    && (forall u {:trigger u in core} :: u in core <==> IsFree(order, size, u) || IsLive(live, size, u))
  }

  lemma FreeUnit(order: seq<int>, size: Words, j: nat, u: int)
    requires Known(order, size) && j < |order|
    ensures In(u, order[j], size[order[j]]) ==> IsFree(order, size, u)
  {
  }

  lemma LiveUnit(live: set<int>, size: Words, b: int, u: int)
    requires (forall c :: c in live ==> c in size) && b in live
    ensures In(u, b, size[b]) ==> IsLive(live, size, u)
  {
  }

  lemma NotShared(base: int, order: seq<int>, ptr: Words, size: Words, live: set<int>, core: iset<int>, j: nat, b: int, u: int)
    requires HeapOk(base, order, ptr, size, live, core) && j < |order| && b in live
    ensures !(In(u, order[j], size[order[j]]) && In(u, b, size[b]))
  {
    FreeUnit(order, size, j, u);
    LiveUnit(live, size, b, u);
  }

  /** A live block lies between two free ones. */
  lemma LiveBetween(base: int, order: seq<int>, ptr: Words, size: Words, live: set<int>, core: iset<int>, i: nat, b: int)
    requires HeapOk(base, order, ptr, size, live, core) && b in live && i < |order|
    requires order[i] < b && (i + 1 < |order| ==> b < order[i + 1])
    ensures Between(order, size, i, b)
  {
    forall j | 0 <= j < |order|
      ensures order[j] != b
    {
      LiveNotFree(base, order, ptr, size, live, core, j);
    }
    NotShared(base, order, ptr, size, live, core, i, b, b);
    if i + 1 < |order| {
      NotShared(base, order, ptr, size, live, core, i + 1, b, order[i + 1]);
    }
  }

  /** No live header is one of the free list's. */
  lemma LiveNotFree(base: int, order: seq<int>, ptr: Words, size: Words, live: set<int>, core: iset<int>, j: nat)
    requires HeapOk(base, order, ptr, size, live, core) && j < |order|
    ensures order[j] !in live
  {
    if order[j] in live && j > 0 {
      NotShared(base, order, ptr, size, live, core, j, order[j], order[j]);
    }
  }

  /** Moving the units of block b from the live to the free ones. */
  lemma FreedOk(base: int, order: seq<int>, ptr: Words, size: Words, live: set<int>, core: iset<int>, b: int, o: seq<int>, q: Words, s: Words)
    requires HeapOk(base, order, ptr, size, live, core) && b in live
    requires Ring(o, q, -1) && Spaced(o, s, -1) && o[0] == base
    requires forall c :: c in live && c != b ==> c in s && s[c] == size[c]
    requires forall u :: IsFree(o, s, u) <==> IsFree(order, size, u) || In(u, b, size[b])
    ensures HeapOk(base, o, q, s, live - {b}, core)
  {
    var rest := live - {b};
    forall u
      ensures IsLive(rest, s, u) <==> IsLive(live, size, u) && !In(u, b, size[b])
    {
      if IsLive(rest, s, u) {
        var c :| c in rest && In(u, c, s[c]);
        assert In(u, c, size[c]);
      }
      if IsLive(live, size, u) && !In(u, b, size[b]) {
        var c :| c in live && In(u, c, size[c]);
        assert c in rest && In(u, c, s[c]);
      }
    }
    forall u, c, d {:trigger In(u, c, s[c]), In(u, d, s[d])} | c in rest && d in rest && In(u, c, s[c]) && In(u, d, s[d])
      ensures c == d
    {
      assert In(u, c, size[c]) && In(u, d, size[d]);
    }
    forall u {:trigger u in core}
      ensures u in core <==> IsFree(o, s, u) || IsLive(rest, s, u)
    {
      assert In(u, b, size[b]) ==> IsLive(live, size, u);
    }
  }

  /** Moving units of a free block to a new live one. */
  lemma TakenOk(base: int, order: seq<int>, ptr: Words, size: Words, live: set<int>, core: iset<int>, b: int, o: seq<int>, q: Words, s: Words)
    requires HeapOk(base, order, ptr, size, live, core) && b > base && b in s && s[b] > 0
    requires Ring(o, q, -1) && Spaced(o, s, -1) && o[0] == base
    requires forall c :: c in live ==> c in s && s[c] == size[c]
    requires forall u :: In(u, b, s[b]) ==> IsFree(order, size, u)
    requires forall u :: IsFree(o, s, u) <==> IsFree(order, size, u) && !In(u, b, s[b])
    ensures HeapOk(base, o, q, s, live + {b}, core)
  {
    var more := live + {b};
    forall u
      ensures IsLive(more, s, u) <==> IsLive(live, size, u) || In(u, b, s[b])
    {
      if IsLive(more, s, u) && !In(u, b, s[b]) {
        var c :| c in more && In(u, c, s[c]);
        assert c in live && In(u, c, size[c]);
      }
      if IsLive(live, size, u) {
        var c :| c in live && In(u, c, size[c]);
        assert c in more && In(u, c, s[c]);
      }
    }
    forall u, c, d {:trigger In(u, c, s[c]), In(u, d, s[d])} | c in more && d in more && In(u, c, s[c]) && In(u, d, s[d])
      ensures c == d
    {
      if c in live {
        LiveUnit(live, size, c, u);
      }
      if d in live {
        LiveUnit(live, size, d, u);
      }
    }
  }

  ghost function Span(b: int, n: int): iset<int> {
    iset u | In(u, b, n)
  }

  /** A new block of units that nobody had. */
  lemma GrowOk(base: int, order: seq<int>, ptr: Words, size: Words, live: set<int>, core: iset<int>, b: int, n: nat)
    requires HeapOk(base, order, ptr, size, live, core) && b > base && n > 0 && b !in order && b !in live
    requires forall u :: In(u, b, n) ==> u !in core
    ensures HeapOk(base, order, ptr, size[b := n], live + {b}, core + Span(b, n))
    ensures forall u :: IsFree(order, size[b := n], u) <==> IsFree(order, size, u)
  {
    var s, more := size[b := n], live + {b};
    forall j {:trigger GapAt(order, s, j, -1)} | 0 <= j < |order| - 1
      ensures GapAt(order, s, j, -1)
    {
      assert GapAt(order, size, j, -1);
    }
    forall u
      ensures IsFree(order, s, u) <==> IsFree(order, size, u)
    {
      if IsFree(order, s, u) {
        var j :| 0 <= j < |order| && In(u, order[j], s[order[j]]);
        assert In(u, order[j], size[order[j]]);
      }
      if IsFree(order, size, u) {
        var j :| 0 <= j < |order| && In(u, order[j], size[order[j]]);
        assert In(u, order[j], s[order[j]]);
      }
    }
    forall u
      ensures IsLive(more, s, u) <==> IsLive(live, size, u) || In(u, b, n)
    {
      if IsLive(more, s, u) && !In(u, b, n) {
        var c :| c in more && In(u, c, s[c]);
        assert c in live && In(u, c, size[c]);
      }
      if IsLive(live, size, u) {
        var c :| c in live && In(u, c, size[c]);
        assert c in more && In(u, c, s[c]);
      }
      if In(u, b, n) {
        assert b in more && In(u, b, s[b]);
      }
    }
    forall u, c, d {:trigger In(u, c, s[c]), In(u, d, s[d])} | c in more && d in more && In(u, c, s[c]) && In(u, d, s[d])
      ensures c == d
    {
      if c in live {
        LiveUnit(live, size, c, u);
      }
      if d in live {
        LiveUnit(live, size, d, u);
      }
    }
    forall u {:trigger IsFree(order, s, u)}
      ensures !(IsFree(order, s, u) && IsLive(more, s, u))
    {
      assert u in core <==> IsFree(order, size, u) || IsLive(live, size, u);
    }
  }
}
