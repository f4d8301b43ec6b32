/**
  The AVL trees of data-structures/lab_5/AVLTree/AVLTree.cpp as values. Of the
  strings that the program keeps only their order matters, so the keys are numbers.
 */
module AvlTrees {

  datatype Tree = Leaf | Node(left: Tree, value: int, right: Tree)

  function Max(a: int, b: int): int { if a > b then a else b }

  function Height(t: Tree): (h: int)
    ensures h >= -1 && (h == -1 <==> t.Leaf?)
  {
    if t.Leaf? then -1 else Max(Height(t.left), Height(t.right)) + 1
  }

  ghost function Keys(t: Tree): set<int> {
    if t.Leaf? then {} else Keys(t.left) + {t.value} + Keys(t.right)
  }

  ghost function Size(t: Tree): nat {
    if t.Leaf? then 0 else 1 + Size(t.left) + Size(t.right)
  }

  ghost predicate Ordered(t: Tree) {
    t.Node? ==>
      && Ordered(t.left) && Ordered(t.right)
      && (forall k :: k in Keys(t.left) ==> k < t.value) && (forall k :: k in Keys(t.right) ==> t.value < k)
  }

  ghost predicate Balanced(t: Tree) {
    t.Node? ==> Balanced(t.left) && Balanced(t.right) && -1 <= Height(t.right) - Height(t.left) <= 1
  }

  // ----- Rotations and balance

  ghost function RotateLeft(t: Tree): Tree
    requires t.Node? && t.right.Node?
  {
    Node(Node(t.left, t.value, t.right.left), t.right.value, t.right.right)
  }

  ghost function RotateRight(t: Tree): Tree
    requires t.Node? && t.left.Node?
  {
    Node(t.left.left, t.left.value, Node(t.left.right, t.value, t.right))
  }

  ghost function Rebalanced(t: Tree): Tree
    requires t.Node?
  {
    if Height(t.right) - Height(t.left) == 2 then
      RotateLeft(if Height(t.right.right) - Height(t.right.left) < 0 then t.(right := RotateRight(t.right)) else t)
    else if Height(t.right) - Height(t.left) == -2 then
      RotateRight(if Height(t.left.right) - Height(t.left.left) > 0 then t.(left := RotateLeft(t.left)) else t)
    else t
  }

  lemma RotateLeftKeeps(t: Tree)
    requires t.Node? && t.right.Node? && Ordered(t)
    ensures Ordered(RotateLeft(t)) && Keys(RotateLeft(t)) == Keys(t)
  {
    assert t.right.value in Keys(t.right);
    assert forall k :: k in Keys(t.right.left) ==> k in Keys(t.right);
  }

  lemma RotateRightKeeps(t: Tree)
    requires t.Node? && t.left.Node? && Ordered(t)
    ensures Ordered(RotateRight(t)) && Keys(RotateRight(t)) == Keys(t)
  {
    assert t.left.value in Keys(t.left);
    assert forall k :: k in Keys(t.left.right) ==> k in Keys(t.left);
  }

  /** balance keeps the contents and their order. */
  lemma RebalancedKeeps(t: Tree)
    requires t.Node? && Ordered(t)
    ensures Ordered(Rebalanced(t)) && Keys(Rebalanced(t)) == Keys(t)
  {
    if Height(t.right) - Height(t.left) == 2 {
      if Height(t.right.right) - Height(t.right.left) < 0 {
        RotateRightKeeps(t.right);
        RotateLeftKeeps(t.(right := RotateRight(t.right)));
      } else {
        RotateLeftKeeps(t);
      }
    } else if Height(t.right) - Height(t.left) == -2 {
      if Height(t.left.right) - Height(t.left.left) > 0 {
        RotateLeftKeeps(t.left);
        RotateRightKeeps(t.(left := RotateLeft(t.left)));
      } else {
        RotateRightKeeps(t);
      }
    }
  }

  lemma RotatedRight(t: Tree)
    requires t.Node? && t.left.Node?
    ensures RotateRight(t) == Node(t.left.left, t.left.value, Node(t.left.right, t.value, t.right))
  {
  }

  lemma RotatedLeft(t: Tree)
    requires t.Node? && t.right.Node?
    ensures RotateLeft(t) == Node(Node(t.left, t.value, t.right.left), t.right.value, t.right.right)
  {
  }

  /** After a double rotation: four subtrees of nearly one height under two nodes. */
  lemma TwoTurns(l: Tree, x: int, m: Tree, y: int, r: Tree, h: int)
    requires Balanced(l) && Balanced(m) && Balanced(r) && Height(l) == Height(r) == h && m.Node? && Height(m) == h + 1
    ensures var t := Node(Node(l, x, m.left), m.value, Node(m.right, y, r)); Balanced(t) && Height(t) == h + 2
  {
  }

  lemma RightHeavy(t: Tree)
    requires t.Node? && Balanced(t.left) && Balanced(t.right) && Height(t.right) - Height(t.left) == 2
    ensures Balanced(Rebalanced(t)) && Height(t) - 1 <= Height(Rebalanced(t)) <= Height(t)
  {
    var l, r := t.left, t.right;
    var a, b, c := Height(l), Height(r.left), Height(r.right);
    hide RotateRight;
    if c - b < 0 {
      var m := r.left;
      assert RotateRight(r) == Node(m.left, m.value, Node(m.right, r.value, r.right)) by { RotatedRight(r); }
      assert Rebalanced(t) == Node(Node(l, t.value, m.left), m.value, Node(m.right, r.value, r.right));
      hide Rebalanced;
      TwoTurns(l, t.value, m, r.value, r.right, a);
    } else {
      assert Rebalanced(t) == Node(Node(l, t.value, r.left), r.value, r.right);
    }
  }

  lemma LeftHeavy(t: Tree)
    requires t.Node? && Balanced(t.left) && Balanced(t.right) && Height(t.right) - Height(t.left) == -2
    ensures Balanced(Rebalanced(t)) && Height(t) - 1 <= Height(Rebalanced(t)) <= Height(t)
  {
    var l, r := t.left, t.right;
    var a, b, c := Height(r), Height(l.left), Height(l.right);
    hide RotateLeft;
    if c - b > 0 {
      var m := l.right;
      assert RotateLeft(l) == Node(Node(l.left, l.value, m.left), m.value, m.right) by { RotatedLeft(l); }
      assert Rebalanced(t) == Node(Node(l.left, l.value, m.left), m.value, Node(m.right, t.value, r));
      hide Rebalanced;
      TwoTurns(l.left, l.value, m, t.value, r, a);
    } else {
      assert Rebalanced(t) == Node(l.left, l.value, Node(l.right, t.value, r));
    }
  }

  /** balance restores balance when one side is too high by one, and then the tree may be one lower. */
  lemma RebalancedBalances(t: Tree)
    requires t.Node? && Balanced(t.left) && Balanced(t.right) && -2 <= Height(t.right) - Height(t.left) <= 2
    ensures Balanced(Rebalanced(t)) && Height(t) - 1 <= Height(Rebalanced(t)) <= Height(t)
    ensures -1 <= Height(t.right) - Height(t.left) <= 1 ==> Rebalanced(t) == t
  {
    if Height(t.right) - Height(t.left) == 2 {
      RightHeavy(t);
      hide Rebalanced;
    } else if Height(t.right) - Height(t.left) == -2 {
      LeftHeavy(t);
      hide Rebalanced;
    }
  }

  // ----- insert

  ghost function Inserted(t: Tree, x: int): Tree {
    if t.Leaf? then Node(Leaf, x, Leaf)
    else if x < t.value then Rebalanced(t.(left := Inserted(t.left, x)))
    else if x > t.value then Rebalanced(t.(right := Inserted(t.right, x)))
    else Rebalanced(t)
  }

  lemma {:induction false} InsertedKeys(t: Tree, x: int)
    requires Ordered(t)
    ensures Ordered(Inserted(t, x)) && Keys(Inserted(t, x)) == Keys(t) + {x}
  {
    hide Rebalanced, Height;
    if t.Node? {
      if x < t.value {
        InsertedKeys(t.left, x);
        RebalancedKeeps(t.(left := Inserted(t.left, x)));
      } else if x > t.value {
        InsertedKeys(t.right, x);
        RebalancedKeeps(t.(right := Inserted(t.right, x)));
      } else {
        RebalancedKeeps(t);
      }
    }
  }

  lemma {:induction false} InsertedBalance(t: Tree, x: int)
    requires Balanced(t)
    ensures Balanced(Inserted(t, x)) && Height(t) <= Height(Inserted(t, x)) <= Height(t) + 1
  {
    hide Rebalanced;
    if t.Node? {
      if x < t.value {
        InsertedBalance(t.left, x);
        GrownHeight(t, t.(left := Inserted(t.left, x)));
      } else if x > t.value {
        InsertedBalance(t.right, x);
        GrownHeight(t, t.(right := Inserted(t.right, x)));
      } else {
        RebalancedBalances(t);
      }
    }
  }

  /** A subtree that grew by a level and was rebalanced does not shrink the tree. */
  lemma GrownHeight(t: Tree, s: Tree)
    requires t.Node? && s.Node? && Balanced(t) && Balanced(s.left) && Balanced(s.right)
    requires (s.right == t.right && Height(t.left) <= Height(s.left) <= Height(t.left) + 1) || (s.left == t.left && Height(t.right) <= Height(s.right) <= Height(t.right) + 1)
    ensures Balanced(Rebalanced(s)) && Height(t) <= Height(Rebalanced(s)) <= Height(t) + 1
  {
    RebalancedBalances(s);
    if Height(s.right) - Height(s.left) == 2 || Height(s.right) - Height(s.left) == -2 {
      assert Height(s) == Height(t) + 1;
    }
    hide Rebalanced, Balanced;
  }

  /** insert: the tree stays ordered and balanced and gains exactly x. */
  lemma InsertedOk(t: Tree, x: int)
    requires Ordered(t) && Balanced(t)
    ensures Ordered(Inserted(t, x)) && Balanced(Inserted(t, x)) && Keys(Inserted(t, x)) == Keys(t) + {x}
  {
    InsertedKeys(t, x);
    InsertedBalance(t, x);
  }

  // ----- remove

  ghost function MinKey(t: Tree): int
    requires t.Node?
  {
    if t.left.Leaf? then t.value else MinKey(t.left)
  }

  lemma {:induction false} MinKeyIsLeast(t: Tree)
    requires t.Node? && Ordered(t)
    ensures MinKey(t) in Keys(t) && forall k :: k in Keys(t) ==> MinKey(t) <= k
  {
    if t.left.Node? {
      MinKeyIsLeast(t.left);
    }
  }

  ghost function Removed(t: Tree, x: int): Tree {
    if t.Leaf? then Leaf
    else if x == t.value then
      if t.left.Leaf? then t.right
      else if t.right.Leaf? then t.left
      else Rebalanced(Node(t.left, MinKey(t.right), Removed(t.right, MinKey(t.right))))
    else if x < t.value then Rebalanced(t.(left := Removed(t.left, x)))
    else Rebalanced(t.(right := Removed(t.right, x)))
  }

  lemma {:induction false} RemovedKeys(t: Tree, x: int)
    requires Ordered(t)
    ensures Ordered(Removed(t, x)) && Keys(Removed(t, x)) == Keys(t) - {x}
  {
    hide Rebalanced, Height;
    if t.Leaf? {
    } else if x < t.value {
      RemovedKeys(t.left, x);
      RebalancedKeeps(t.(left := Removed(t.left, x)));
    } else if x > t.value {
      RemovedKeys(t.right, x);
      RebalancedKeeps(t.(right := Removed(t.right, x)));
    } else if t.left.Node? && t.right.Node? {
      var m := MinKey(t.right);
      MinKeyIsLeast(t.right);
      RemovedKeys(t.right, m);
      var s := Node(t.left, m, Removed(t.right, m));
      assert Ordered(s) && Keys(s) == Keys(t) - {x};
      RebalancedKeeps(s);
    }
  }

  lemma {:induction false} RemovedBalance(t: Tree, x: int)
    requires Balanced(t)
    ensures Balanced(Removed(t, x)) && Height(t) - 1 <= Height(Removed(t, x)) <= Height(t)
  {
    hide Rebalanced, MinKey;
    if t.Leaf? {
    } else if x < t.value {
      RemovedBalance(t.left, x);
      ShrunkHeight(t, t.(left := Removed(t.left, x)));
    } else if x > t.value {
      RemovedBalance(t.right, x);
      ShrunkHeight(t, t.(right := Removed(t.right, x)));
    } else if t.left.Node? && t.right.Node? {
      var m := MinKey(t.right);
      RemovedBalance(t.right, m);
      ShrunkHeight(t, Node(t.left, m, Removed(t.right, m)));
    }
  }

  /** A subtree that lost a level costs the tree one at most. */
  lemma ShrunkHeight(t: Tree, s: Tree)
    requires t.Node? && s.Node? && Balanced(t) && Balanced(s.left) && Balanced(s.right)
    requires (s.right == t.right && Height(t.left) - 1 <= Height(s.left) <= Height(t.left)) || (s.left == t.left && Height(t.right) - 1 <= Height(s.right) <= Height(t.right))
    ensures Balanced(Rebalanced(s)) && Height(t) - 1 <= Height(Rebalanced(s)) <= Height(t)
  {
    RebalancedBalances(s);
    hide Rebalanced, Balanced;
  }

  /** remove: the tree stays ordered and balanced and loses exactly x. */
  lemma RemovedOk(t: Tree, x: int)
    requires Ordered(t) && Balanced(t)
    ensures Ordered(Removed(t, x)) && Balanced(Removed(t, x)) && Keys(Removed(t, x)) == Keys(t) - {x}
  {
    RemovedKeys(t, x);
    RemovedBalance(t, x);
  }

  // ----- Size

  lemma {:induction false} SizeIsKeys(t: Tree)
    requires Ordered(t)
    ensures Size(t) == |Keys(t)|
  {
    if t.Node? {
      SizeIsKeys(t.left);
      SizeIsKeys(t.right);
      var a, b, c := Keys(t.left), {t.value}, Keys(t.right);
      assert a !! b;
      assert |a + b| == |a| + 1;
      forall k | k in a + b
        ensures k !in c
      {
        assert k <= t.value;
      }
      assert (a + b) * c == {};
      assert |a + b + c| == |a + b| + |c|;
    }
  }

  ghost function Fib(n: nat): nat {
    if n < 2 then n else Fib(n - 1) + Fib(n - 2)
  }

  lemma {:induction false} FibGrows(n: nat)
    ensures Fib(n) <= Fib(n + 1)
  {
  }

  /** A balanced tree of height h has at least Fib(h + 3) - 1 nodes, so its height is logarithmic. */
  lemma {:induction false} BalancedIsLarge(t: Tree)
    requires Balanced(t)
    ensures Size(t) >= Fib(Height(t) + 3) - 1
  {
    if t.Node? {
      BalancedIsLarge(t.left);
      BalancedIsLarge(t.right);
      var h, a, b := Height(t), Height(t.left), Height(t.right);
      assert Size(t) == 1 + Size(t.left) + Size(t.right);
      assert h >= 0 && (a == h - 1 || b == h - 1) && h - 2 <= a < h && h - 2 <= b < h;
      assert Fib(h + 3) == Fib(h + 2) + Fib(h + 1);
      hide Size, Height, Balanced;
      FibGrows(h + 1);
    }
  }
}
