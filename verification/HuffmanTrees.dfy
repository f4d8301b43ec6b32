/** Huffman's tree nodes (data-structures/lab_10/huffmanNode.cpp) as values, and what they weigh. */
module HuffmanTrees {

  const UINT_LIMIT := 0x1_0000_0000

  /** A node is never changed once it is in the heap; only leaves carry a character. */
  datatype Tree = Leaf(value: char, frequency: nat) | Node(left: Tree, right: Tree, frequency: nat)

  ghost function Leaves(t: Tree): multiset<Tree> {
    match t
    case Leaf(_, _) => multiset{t}
    case Node(l, r, _) => Leaves(l) + Leaves(r)
  }

  /** The total frequency of the leaves. */
  ghost function Weight(t: Tree): nat {
    match t
    case Leaf(_, f) => f
    case Node(l, r, _) => Weight(l) + Weight(r)
  }

  /** Every leaf counts its frequency times its depth, where t itself sits at depth d. */
  ghost function WeightedDepth(t: Tree, d: nat): nat {
    match t
    case Leaf(_, f) => f * d
    case Node(l, r, _) => WeightedDepth(l, d + 1) + WeightedDepth(r, d + 1)
  }

  ghost function Cost(t: Tree): nat { WeightedDepth(t, 0) }

  /** Node frequencies are the weights below them. */
  ghost predicate Weighed(t: Tree) {
    t.frequency == Weight(t) && (t.Node? ==> Weighed(t.left) && Weighed(t.right))
  }

  lemma {:induction false} Deeper(t: Tree, d: nat)
    ensures WeightedDepth(t, d + 1) == WeightedDepth(t, d) + Weight(t)
  {
    match t
    case Leaf(_, f) =>
    case Node(l, r, _) =>
      Deeper(l, d + 1);
      Deeper(r, d + 1);
  }

  /** Joining two trees costs their weight. */
  lemma JoinCost(a: Tree, b: Tree, f: nat)
    ensures Cost(Node(a, b, f)) == Cost(a) + Cost(b) + Weight(a) + Weight(b)
  {
    Deeper(a, 0);
    Deeper(b, 0);
  }
}
