/** The binary heap of data-structures/lab_10/heap.cpp, ordered by frequency. */
module Heaps {
  import opened HuffmanTrees
  import opened Wrappers

  // ----- Heap order on a sequence whose slot 0 is unused

  ghost predicate Ordered(s: seq<Tree>) {
    forall k {:trigger s[k]} :: 2 <= k < |s| ==> s[k / 2].frequency <= s[k].frequency
  }

  ghost function Items(s: seq<Tree>): multiset<Tree>
    requires |s| > 0
  {
    multiset(s[1..])
  }

  lemma ItemsUpdate(s: seq<Tree>, k: nat, t: Tree)
    requires 1 <= k < |s|
    ensures Items(s[k := t]) == Items(s) - multiset{s[k]} + multiset{t}
  {
    assert s[k := t][1..] == s[1..][k - 1 := t];
  }

  /** The root of a heap is a least element. */
  lemma {:induction false} RootIsLeast(s: seq<Tree>, k: nat)
    requires Ordered(s) && 1 <= k < |s|
    ensures s[1].frequency <= s[k].frequency
  {
    if k != 1 {
      RootIsLeast(s, k / 2);
    }
  }

  lemma RootIsMinimum(s: seq<Tree>)
    requires Ordered(s) && |s| > 1
    ensures s[1] in Items(s) && forall t :: t in Items(s) ==> s[1].frequency <= t.frequency
  {
    assert s[1] == s[1..][0];
    forall t | t in Items(s)
      ensures s[1].frequency <= t.frequency
    {
      var k :| 0 <= k < |s[1..]| && s[1..][k] == t;
      RootIsLeast(s, k + 1);
    }
  }

  // ----- A hole that a node is to be dropped into

  /** With x in the hole, order may fail only between the hole and its parent. */
  ghost predicate RisingOrder(s: seq<Tree>, hole: nat, x: Tree)
    requires 1 <= hole < |s|
  {
    && (forall k {:trigger s[k]} :: 2 <= k < |s| && k != hole && k / 2 != hole ==> s[k / 2].frequency <= s[k].frequency)
    && (forall k {:trigger s[k]} :: 2 <= k < |s| && k / 2 == hole ==> x.frequency <= s[k].frequency)
    && (forall k {:trigger s[k]} :: 2 <= k < |s| && k / 2 == hole && hole > 1 ==> s[hole / 2].frequency <= s[k].frequency)
  }

  lemma Rise(s: seq<Tree>, hole: nat, x: Tree)
    requires 1 < hole < |s| && RisingOrder(s, hole, x) && x.frequency < s[hole / 2].frequency
    ensures RisingOrder(s[hole := s[hole / 2]], hole / 2, x)
  {
  }

  lemma RiseDone(s: seq<Tree>, hole: nat, x: Tree)
    requires 1 <= hole < |s| && RisingOrder(s, hole, x)
    requires hole > 1 ==> s[hole / 2].frequency <= x.frequency
    ensures Ordered(s[hole := x])
  {
  }

  /** With x in the hole, order may fail only between the hole and its children. */
  ghost predicate SinkingOrder(s: seq<Tree>, hole: nat, x: Tree)
    requires 1 <= hole < |s|
  {
    && (forall k {:trigger s[k]} :: 2 <= k < |s| && k != hole && k / 2 != hole ==> s[k / 2].frequency <= s[k].frequency)
    && (hole > 1 ==> s[hole / 2].frequency <= x.frequency)
    && (forall k {:trigger s[k]} :: 2 <= k < |s| && k / 2 == hole && hole > 1 ==> s[hole / 2].frequency <= s[k].frequency)
  }

  lemma Sink(s: seq<Tree>, hole: nat, x: Tree, child: nat)
    requires 1 <= hole < |s| && SinkingOrder(s, hole, x)
    requires child < |s| && child / 2 == hole && s[child].frequency < x.frequency
    requires forall k {:trigger s[k]} :: 2 <= k < |s| && k / 2 == hole ==> s[child].frequency <= s[k].frequency
    ensures SinkingOrder(s[hole := s[child]], child, x)
  {
  }

  lemma SinkDone(s: seq<Tree>, hole: nat, x: Tree)
    requires 1 <= hole < |s| && SinkingOrder(s, hole, x)
    requires forall k {:trigger s[k]} :: 2 <= k < |s| && k / 2 == hole ==> x.frequency <= s[k].frequency
    ensures Ordered(s[hole := x])
  {
  }

  class Heap {
    var slots: seq<Tree>
    var size: nat

    ghost predicate Valid()
      reads this
    {
      |slots| == size + 1 && Ordered(slots)
    }

    ghost function Contents(): multiset<Tree>
      reads this
      requires |slots| > 0
    {
      Items(slots)
    }

    /** An empty heap; slot 0 holds a filler where the program has NULL. */
    constructor ()
      ensures Valid() && Contents() == multiset{}
    {
      slots := [Leaf('-', 0)];
      size := 0;
    }

    method Insert(node: Tree)
      requires Valid()
      modifies this
      ensures Valid() && Contents() == old(Contents()) + multiset{node} && size == old(size) + 1
    {
      ghost var before := slots;
      slots := slots + [node];
      assert slots[1..] == before[1..] + [node];
      size := size + 1;
      assert forall k {:trigger slots[k]} :: 2 <= k < |before| ==> slots[k] == before[k] && slots[k / 2] == before[k / 2];
      PercolateUp(size);
    }

    method InsertLeaf(value: char, freq: nat)
      requires Valid() && freq < UINT_LIMIT
      modifies this
      ensures Valid() && Contents() == old(Contents()) + multiset{Leaf(value, freq)} && size == old(size) + 1
    {
      Insert(Leaf(value, freq));
    }

    method PercolateUp(hole0: nat)
      requires |slots| == size + 1 && 1 <= hole0 <= size && RisingOrder(slots, hole0, slots[hole0])
      modifies this`slots
      ensures Valid() && Contents() == old(Contents())
    {
      var hole := hole0;
      var toMove := slots[hole];
      assert slots == slots[hole := toMove];
      while hole > 1 && toMove.frequency < slots[hole / 2].frequency
        invariant |slots| == size + 1 && 1 <= hole <= size
        invariant RisingOrder(slots, hole, toMove)
        invariant Items(slots[hole := toMove]) == old(Contents())
      {
        Rise(slots, hole, toMove);
        MovedItems(slots, hole, hole / 2, toMove);
        slots := slots[hole := slots[hole / 2]];
        hole := hole / 2;
      }
      RiseDone(slots, hole, toMove);
      slots := slots[hole := toMove];
    }

    method PercolateDown(hole0: nat)
      requires |slots| == size + 1 && 1 <= hole0 <= size && SinkingOrder(slots, hole0, slots[hole0])
      modifies this`slots
      ensures Valid() && Contents() == old(Contents())
    {
      var hole := hole0;
      var toMove := slots[hole];
      assert slots == slots[hole := toMove];
      while hole * 2 <= size
        invariant |slots| == size + 1 && 1 <= hole <= size
        invariant SinkingOrder(slots, hole, toMove)
        invariant Items(slots[hole := toMove]) == old(Contents())
        decreases size - hole
      {
        var childIndex := LesserChild(slots, hole);
        if toMove.frequency > slots[childIndex].frequency {
          Sink(slots, hole, toMove, childIndex);
          MovedItems(slots, hole, childIndex, toMove);
          slots := slots[hole := slots[childIndex]];
          hole := childIndex;
        } else {
          break;
        }
      }
      SinkDone(slots, hole, toMove);
      slots := slots[hole := toMove];
    }

    /** None stands for the NULL that the program returns, with a message, on an empty heap. */
    method DeleteMin() returns (r: Option<Tree>)
      requires Valid()
      modifies this
      ensures Valid()
      ensures old(size) == 0 ==> r == None && slots == old(slots) && size == 0
      ensures old(size) > 0 ==> r.Some? && size == old(size) - 1
      ensures r.Some? ==> old(Contents()) == Contents() + multiset{r.value}
      ensures r.Some? ==> forall t :: t in old(Contents()) ==> r.value.frequency <= t.frequency
    {
      if size == 0 {
        return None;
      }
      var toReturn := slots[1];
      RootIsMinimum(slots);
      MoveLastToFront();
      if size != 0 {
        PercolateDown(1);
      }
      r := Some(toReturn);
    }

    /** The last node takes the place of the root. */
    method MoveLastToFront()
      requires Valid() && size > 0
      modifies this
      ensures size == old(size) - 1 && |slots| == size + 1
      ensures if size != 0 then SinkingOrder(slots, 1, slots[1]) else Valid()
      ensures old(Contents()) == Contents() + multiset{old(slots[1])}
    {
      LastToFrontItems(slots);
      LastToFrontOrder(slots);
      slots := slots[1 := slots[size]];
      size := size - 1;
      slots := slots[..|slots| - 1];
    }
  }

  function LesserChild(s: seq<Tree>, hole: nat): (child: nat)
    requires 1 <= hole && hole * 2 < |s|
    ensures child < |s| && child / 2 == hole
    ensures forall k {:trigger s[k]} :: 2 <= k < |s| && k / 2 == hole ==> s[child].frequency <= s[k].frequency
  {
    var left := hole * 2;
    assert forall k :: k / 2 == hole ==> k == left || k == left + 1;
    if left + 1 < |s| && s[left + 1].frequency < s[left].frequency then left + 1 else left
  }

  /** Moving a neighbour into the hole only moves the hole. */
  lemma MovedItems(s: seq<Tree>, hole: nat, next: nat, x: Tree)
    requires 1 <= hole < |s| && 1 <= next < |s| && hole != next
    ensures Items(s[hole := s[next]][next := x]) == Items(s[hole := x])
  {
    ItemsUpdate(s, hole, s[next]);
    ItemsUpdate(s[hole := s[next]], next, x);
    ItemsUpdate(s, hole, x);
  }

  /** Overwriting the root with the last item and dropping the last slot removes the root's item. */
  lemma LastToFrontItems(s: seq<Tree>)
    requires |s| > 1
    ensures Items(s) == Items(s[1 := s[|s| - 1]][..|s| - 1]) + multiset{s[1]}
  {
    var last := |s| - 1;
    if last == 1 {
      assert s[1..] == [s[1]] && s[1 := s[1]][..1][1..] == [];
    } else {
      var middle := s[2..last];
      assert s[1..] == [s[1]] + middle + [s[last]];
      assert s[1 := s[last]][..last][1..] == [s[last]] + middle;
    }
  }

  lemma LastToFrontOrder(s: seq<Tree>)
    requires |s| > 1 && Ordered(s)
    ensures var t := s[1 := s[|s| - 1]][..|s| - 1];
      (|t| > 1 ==> SinkingOrder(t, 1, t[1])) && (|t| == 1 ==> Ordered(t))
  {
    var t := s[1 := s[|s| - 1]][..|s| - 1];
    forall k {:trigger t[k]} | 2 <= k < |t| && k / 2 != 1
      ensures t[k / 2].frequency <= t[k].frequency
    {
      assert t[k] == s[k] && t[k / 2] == s[k / 2];
    }
  }
}
