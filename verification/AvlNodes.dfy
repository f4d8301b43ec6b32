/** The nodes of data-structures/lab_5/AVLTree/AVLTree.cpp, changed in place, against the trees they stand for. */
module AvlNodes {
  import opened AvlTrees

  class AVLNode {
    var value: int
    var left: AVLNode?
    var right: AVLNode?
    var height: int
    ghost var repr: set<AVLNode>
    ghost var tree: Tree

    constructor (x: int)
      ensures Valid() && fresh(repr) && tree == Node(Leaf, x, Leaf)
    {
      value, left, right, height := x, null, null, 0;
      repr := {this};
      tree := Node(Leaf, x, Leaf);
    }

    /** The subtrees are well formed and apart; the height field of this node may be out of date. */
    ghost predicate Linked()
      reads this, repr
      decreases repr, 0
    {
      && this in repr
      && (left != null ==> left in repr && left.repr < repr && this !in left.repr && left.tree.Node? && left.Valid())
      && (right != null ==> right in repr && right.repr < repr && this !in right.repr && right.tree.Node? && right.Valid())
      && (left != null && right != null ==> left.repr !! right.repr)
      && tree == Node(TreeOf(left), value, TreeOf(right))
    }

    ghost predicate Valid()
      reads this, repr
      ensures Valid() ==> this in repr
      decreases repr, 1
    {
      Linked() && height == Height(tree)
    }
  }

  ghost function ReprOf(n: AVLNode?): set<AVLNode>
    reads n
  {
    if n == null then {} else n.repr
  }

  ghost function TreeOf(n: AVLNode?): Tree
    reads n
  {
    if n == null then Leaf else n.tree
  }

  ghost predicate ValidOf(n: AVLNode?)
    reads n, ReprOf(n)
  {
    n == null || n.Valid()
  }

  /** What a well formed node says of its children. */
  lemma Opened(n: AVLNode)
    requires n.Valid()
    ensures n.Linked() && ValidOf(n.left) && ValidOf(n.right)
    ensures ReprOf(n.left) < n.repr && ReprOf(n.right) < n.repr
    ensures n.tree == Node(TreeOf(n.left), n.value, TreeOf(n.right))
    ensures (n.left == null <==> n.tree.left.Leaf?) && (n.right == null <==> n.tree.right.Leaf?)
  {
  }

  /** The height field, exact in a well formed subtree. */
  method HeightOf(n: AVLNode?) returns (h: int)
    requires ValidOf(n)
    ensures h == Height(TreeOf(n))
  {
    h := if n == null then -1 else n.height;
  }

  method SetHeight(n: AVLNode)
    requires n.Linked()
    modifies n`height
    ensures n.Valid()
  {
    var l := HeightOf(n.left);
    var r := HeightOf(n.right);
    n.height := Max(l, r) + 1;
    assert Height(n.tree) == n.height;
    hide Height;
    assert n.Linked();
  }

  /** Recalculates a node after one of its children has changed. */
  method Refresh(n: AVLNode)
    requires ValidOf(n.left) && ValidOf(n.right)
    requires ReprOf(n.left) !! ReprOf(n.right) && n !in ReprOf(n.left) && n !in ReprOf(n.right)
    requires (n.left != null ==> n.left.tree.Node?) && (n.right != null ==> n.right.tree.Node?)
    modifies n
    ensures n.Valid() && n.repr == {n} + ReprOf(n.left) + ReprOf(n.right)
    ensures n.tree == Node(TreeOf(n.left), n.value, TreeOf(n.right))
    ensures n.left == old(n.left) && n.right == old(n.right) && n.value == old(n.value)
  {
    n.repr := {n} + ReprOf(n.left) + ReprOf(n.right);
    n.tree := Node(TreeOf(n.left), n.value, TreeOf(n.right));
    SetHeight(n);
  }

  /** Ghost fields only: the height is left as it was. */
  ghost method Relink(n: AVLNode)
    requires ValidOf(n.left) && ValidOf(n.right)
    requires ReprOf(n.left) !! ReprOf(n.right) && n !in ReprOf(n.left) && n !in ReprOf(n.right)
    requires (n.left != null ==> n.left.tree.Node?) && (n.right != null ==> n.right.tree.Node?)
    modifies n`repr, n`tree
    ensures n.Linked() && n.repr == {n} + ReprOf(n.left) + ReprOf(n.right)
    ensures n.tree == Node(TreeOf(n.left), n.value, TreeOf(n.right))
  {
    n.repr := {n} + ReprOf(n.left) + ReprOf(n.right);
    n.tree := Node(TreeOf(n.left), n.value, TreeOf(n.right));
  }

  method TurnLeft(n: AVLNode) returns (r: AVLNode)
    requires n.Linked() && n.right != null
    modifies n, n.right
    ensures r.Valid() && r.repr <= old(n.repr)
    ensures r.tree == RotateLeft(old(n.tree))
  {
    hide Height;
    r := n.right;
    ghost var t := n.tree;
    var temp := r.left;
    assert r.Linked();
    assert ValidOf(n.left) && ValidOf(temp) && ValidOf(r.right);
    r.left := n;
    n.right := temp;
    Refresh(n);
    Refresh(r);
  }

  method TurnRight(n: AVLNode) returns (r: AVLNode)
    requires n.Linked() && n.left != null
    modifies n, n.left
    ensures r.Valid() && r.repr <= old(n.repr)
    ensures r.tree == RotateRight(old(n.tree))
  {
    hide Height;
    r := n.left;
    ghost var t := n.tree;
    var temp := r.right;
    assert r.Linked();
    assert ValidOf(n.right) && ValidOf(temp) && ValidOf(r.left);
    r.right := n;
    n.left := temp;
    Refresh(n);
    Refresh(r);
  }

  method Balance(n: AVLNode) returns (r: AVLNode)
    requires n.Valid()
    modifies n.repr
    ensures r.Valid() && r.repr <= old(n.repr)
    ensures old(n.tree).Node? && r.tree == Rebalanced(old(n.tree))
  {
    hide RotateLeft, RotateRight;
    ghost var t := n.tree;
    Opened(n);
    var h := HeightOf(n.right);
    var g := HeightOf(n.left);
    if h - g == 2 {
      r := BalanceRight(n);
    } else if h - g == -2 {
      r := BalanceLeft(n);
    } else {
      r := n;
    }
  }

  method LeanRight(n: AVLNode)
    requires n.Valid() && n.tree.Node? && n.tree.right.Node? && n.tree.right.left.Node?
    modifies n.repr
    ensures n.Linked() && n.right != null && n.repr <= old(n.repr)
    ensures n.tree == old(n.tree).(right := RotateRight(old(n.tree).right))
  {
    Opened(n);
    Opened(n.right);
    assert n.right.left in n.right.repr && n.right in n.repr;
    hide RotateRight, Height;
    var s := TurnRight(n.right);
    n.right := s;
    Relink(n);
  }

  method BalanceRight(n: AVLNode) returns (r: AVLNode)
    requires n.Valid() && n.tree.Node? && Height(n.tree.right) - Height(n.tree.left) == 2
    modifies n.repr
    ensures r.Valid() && r.repr <= old(n.repr)
    ensures r.tree == Rebalanced(old(n.tree))
  {
    Opened(n);
    Opened(n.right);
    var a := HeightOf(n.right.right);
    var b := HeightOf(n.right.left);
    if a - b < 0 {
      LeanRight(n);
    }
    r := TurnLeft(n);
  }

  /** The first half of a double rotation. */
  method LeanLeft(n: AVLNode)
    requires n.Valid() && n.tree.Node? && n.tree.left.Node? && n.tree.left.right.Node?
    modifies n.repr
    ensures n.Linked() && n.left != null && n.repr <= old(n.repr)
    ensures n.tree == old(n.tree).(left := RotateLeft(old(n.tree).left))
  {
    Opened(n);
    Opened(n.left);
    assert n.left.right in n.left.repr && n.left in n.repr;
    hide RotateLeft, Height;
    var s := TurnLeft(n.left);
    n.left := s;
    Relink(n);
  }

  method BalanceLeft(n: AVLNode) returns (r: AVLNode)
    requires n.Valid() && n.tree.Node? && Height(n.tree.right) - Height(n.tree.left) == -2
    modifies n.repr
    ensures r.Valid() && r.repr <= old(n.repr)
    ensures r.tree == Rebalanced(old(n.tree))
  {
    Opened(n);
    Opened(n.left);
    var a := HeightOf(n.left.right);
    var b := HeightOf(n.left.left);
    if a - b > 0 {
      LeanLeft(n);
    }
    r := TurnRight(n);
  }

  /** The private insert; the caller's reference is the result. */
  method Insert(node: AVLNode, x: int) returns (r: AVLNode)
    requires node.Valid()
    modifies node.repr
    ensures r.Valid() && fresh(r.repr - old(node.repr))
    ensures r.tree == Inserted(old(node.tree), x)
    decreases node.repr
  {
    hide Rebalanced, Height;
    Opened(node);
    if x < node.value {
      var l;
      if node.left == null {
        l := new AVLNode(x);
      } else {
        l := Insert(node.left, x);
      }
      node.left := l;
    } else if x > node.value {
      var l;
      if node.right == null {
        l := new AVLNode(x);
      } else {
        l := Insert(node.right, x);
      }
      node.right := l;
    }
    Refresh(node);
    r := Balance(node);
  }

  method Min(node: AVLNode) returns (m: int)
    requires node.Valid()
    ensures node.tree.Node? && m == MinKey(node.tree)
    decreases node.repr
  {
    Opened(node);
    if node.left == null {
      m := node.value;
    } else {
      m := Min(node.left);
    }
  }

  method Find(n: AVLNode?, x: int) returns (found: bool)
    requires ValidOf(n) && Ordered(TreeOf(n))
    ensures found <==> x in Keys(TreeOf(n))
    decreases ReprOf(n)
  {
    if n == null {
      return false;
    }
    Opened(n);
    if x < n.value {
      found := Find(n.left, x);
    } else if x > n.value {
      found := Find(n.right, x);
    } else {
      found := true;
    }
  }

  method NumNodes(n: AVLNode?) returns (k: nat)
    requires ValidOf(n)
    ensures k == Size(TreeOf(n))
    decreases ReprOf(n)
  {
    if n == null {
      k := 0;
    } else {
      Opened(n);
      var l := NumNodes(n.left);
      var r := NumNodes(n.right);
      k := 1 + l + r;
    }
  }

  /** The private remove; nodes that it frees are just left behind. */
  method Remove(n: AVLNode?, x: int) returns (r: AVLNode?)
    requires ValidOf(n)
    modifies ReprOf(n)
    ensures ValidOf(r) && ReprOf(r) <= old(ReprOf(n)) && (r != null ==> r.tree.Node?)
    ensures TreeOf(r) == Removed(old(TreeOf(n)), x)
    decreases ReprOf(n)
  {
    hide Rebalanced, Height;
    if n == null {
      return null;
    }
    Opened(n);
    if x == n.value {
      if n.left == null && n.right == null {
        return null;
      } else if n.left == null {
        return n.right;
      } else if n.right == null {
        return n.left;
      } else {
        var sr := Min(n.right);
        n.value := sr;
        var s := Remove(n.right, sr);
        n.right := s;
      }
    } else if x < n.value {
      var s := Remove(n.left, x);
      n.left := s;
    } else {
      var s := Remove(n.right, x);
      n.right := s;
    }
    Refresh(n);
    r := Balance(n);
  }

  class AVLTree {
    var root: AVLNode?

    ghost predicate Valid()
      reads this, root, ReprOf(root)
    {
      ValidOf(root) && Ordered(TreeOf(root)) && Balanced(TreeOf(root))
    }

    ghost function Contents(): set<int>
      reads this, root
    {
      Keys(TreeOf(root))
    }

    constructor ()
      ensures Valid() && Contents() == {} && root == null
    {
      root := null;
    }

    method Contains(x: int) returns (found: bool)
      requires Valid()
      ensures found <==> x in Contents()
    {
      found := Find(root, x);
    }

    method Add(x: int)
      requires Valid()
      modifies this, ReprOf(root)
      ensures Valid() && Contents() == old(Contents()) + {x}
      ensures fresh(ReprOf(root) - old(ReprOf(root)))
    {
      if root == null {
        root := new AVLNode(x);
        return;
      }
      var found := Find(root, x);
      if !found {
        InsertedOk(root.tree, x);
        var r := Insert(root, x);
        root := r;
      }
    }

    method Delete(x: int)
      requires Valid()
      modifies this, ReprOf(root)
      ensures Valid() && Contents() == old(Contents()) - {x}
      ensures ReprOf(root) <= old(ReprOf(root))
    {
      RemovedOk(TreeOf(root), x);
      var r := Remove(root, x);
      root := r;
    }

    /** The number of nodes is the number of keys, and at least Fib(height + 3) - 1. */
    method Count() returns (n: nat)
      requires Valid()
      ensures n == |Contents()| && n >= Fib(Height(TreeOf(root)) + 3) - 1
    {
      n := NumNodes(root);
      SizeIsKeys(TreeOf(root));
      BalancedIsLarge(TreeOf(root));
    }
  }
}
