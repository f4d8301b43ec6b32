/**
  The code table (writeCodes, generateLookup in data-structures/lab_10/huffmanenc.cpp), the
  decoder's tree (createTree, generateHuffTree in huffmandec.cpp) and decodeMessage.
 */
module HuffmanCodes {
  import opened HuffmanTrees
  import opened Wrappers

  type Table = map<char, string>

  function Letters(t: Tree): (s: set<char>)
    ensures s != {}
  {
    match t
    case Leaf(c, _) => {c}
    case Node(l, r, _) => Letters(l) + Letters(r)
  }

  /** No character labels two leaves. */
  ghost predicate Distinct(t: Tree) {
    t.Node? ==> Letters(t.left) !! Letters(t.right) && Distinct(t.left) && Distinct(t.right)
  }

  /** The way from the root to c's leaf: 0 to the left, 1 to the right. */
  ghost function CodeOf(t: Tree, c: char): string
    requires c in Letters(t)
  {
    match t
    case Leaf(_, _) => ""
    case Node(l, r, _) => if c in Letters(r) then "1" + CodeOf(r, c) else "0" + CodeOf(l, c)
  }

  /** Below a node, codes to the left begin with 0 and codes to the right with 1; a tree that is a leaf has the empty code. */
  lemma CodeGoesTo(t: Tree, c: char)
    requires Distinct(t) && c in Letters(t)
    ensures t.Leaf? ==> CodeOf(t, c) == ""
    ensures t.Node? && c in Letters(t.left) ==> CodeOf(t, c) == ['0'] + CodeOf(t.left, c)
    ensures t.Node? && c in Letters(t.right) ==> CodeOf(t, c) == ['1'] + CodeOf(t.right, c)
  {
  }

  ghost function CodeTable(t: Tree, path: string): Table {
    map c | c in Letters(t) :: path + CodeOf(t, c)
  }

  lemma NodeCode(t: Tree, path: string, c: char)
    requires t.Node? && c in Letters(t)
    ensures path + CodeOf(t, c)
         == if c in Letters(t.right) then path + "1" + CodeOf(t.right, c) else path + "0" + CodeOf(t.left, c)
  {
    if c in Letters(t.right) {
      Regrouped(path, "1", CodeOf(t.right, c));
    } else {
      Regrouped(path, "0", CodeOf(t.left, c));
    }
  }

  lemma Regrouped(a: string, b: string, c: string)
    ensures a + (b + c) == a + b + c
  {
  }

  lemma NodeTable(table: Table, t: Tree, path: string)
    requires t.Node? && Distinct(t)
    ensures table + CodeTable(t.right, path + "1") + CodeTable(t.left, path + "0") == table + CodeTable(t, path)
  {
    var a, b := table + CodeTable(t.right, path + "1") + CodeTable(t.left, path + "0"), table + CodeTable(t, path);
    assert a.Keys == b.Keys;
    forall c | c in a
      ensures a[c] == b[c]
    {
      if c in Letters(t) {
        NodeCode(t, path, c);
      }
    }
  }

  /** writeCodes: the right subtree first, then the left one. */
  method WriteCodes(table: Table, t: Tree, path: string) returns (r: Table)
    requires Distinct(t)
    ensures r == table + CodeTable(t, path)
    decreases t
  {
    match t
    case Leaf(c, _) =>
      r := table[c := path];
      assert path + "" == path;
    case Node(left, right, _) =>
      NodeTable(table, t, path);
      hide CodeTable;
      r := WriteCodes(table, right, path + "1");
      r := WriteCodes(r, left, path + "0");
  }

  /** generateLookup: no tree, no codes. */
  method GenerateLookup(root: Option<Tree>) returns (table: Table)
    requires root.Some? ==> Distinct(root.value)
    ensures root.None? ==> table == map[]
    ensures root.Some? ==> table == CodeTable(root.value, "")
  {
    table := map[];
    if root.Some? {
      table := WriteCodes(table, root.value, "");
    }
  }

  lemma PrefixOfTails(h: string, a: string, b: string)
    ensures h + a <= h + b ==> a <= b
  {
    assert h + a <= h + b ==> (h + a)[|h|..] == a && (h + b)[|h|..] == b;
  }

  /** No code is a prefix of another. */
  lemma {:induction false} PrefixFree(t: Tree, c: char, d: char)
    requires Distinct(t) && c in Letters(t) && d in Letters(t) && c != d
    ensures !(CodeOf(t, c) <= CodeOf(t, d))
  {
    var x, y := CodeOf(t, c), CodeOf(t, d);
    if (c in Letters(t.right)) == (d in Letters(t.right)) {
      var s := if c in Letters(t.right) then t.right else t.left;
      PrefixFree(s, c, d);
      PrefixOfTails(x[..1], CodeOf(s, c), CodeOf(s, d));
      assert x == x[..1] + CodeOf(s, c) && y == x[..1] + CodeOf(s, d);
    } else {
      assert x[0] != y[0];
    }
  }

  // ----- The size of an encoded message

  ghost function Count(m: string, c: char): nat {
    if m == "" then 0 else Count(m[1..], c) + if m[0] == c then 1 else 0
  }

  /** The number of bits in the codes of a message. */
  ghost function Bits(t: Tree, m: string): nat
    requires forall k :: 0 <= k < |m| ==> m[k] in Letters(t)
  {
    if m == "" then 0 else |CodeOf(t, m[0])| + Bits(t, m[1..])
  }

  ghost function CountedDepth(t: Tree, m: string, d: nat): nat {
    match t
    case Leaf(c, _) => Count(m, c) * d
    case Node(l, r, _) => CountedDepth(l, m, d + 1) + CountedDepth(r, m, d + 1)
  }

  lemma {:induction false} OneMoreLetter(t: Tree, m: string, d: nat)
    requires Distinct(t) && m != ""
    ensures CountedDepth(t, m, d) == CountedDepth(t, m[1..], d) + if m[0] in Letters(t) then d + |CodeOf(t, m[0])| else 0
  {
    match t
    case Leaf(c, _) =>
    case Node(l, r, _) =>
      OneMoreLetter(l, m, d + 1);
      OneMoreLetter(r, m, d + 1);
  }

  lemma {:induction false} NoLetters(t: Tree, d: nat)
    ensures CountedDepth(t, "", d) == 0
  {
    if t.Node? {
      NoLetters(t.left, d + 1);
      NoLetters(t.right, d + 1);
    }
  }

  lemma {:induction false} BitsAreCountedDepth(t: Tree, m: string)
    requires Distinct(t) && forall k :: 0 <= k < |m| ==> m[k] in Letters(t)
    ensures Bits(t, m) == CountedDepth(t, m, 0)
  {
    if m == "" {
      NoLetters(t, 0);
    } else {
      OneMoreLetter(t, m, 0);
      BitsAreCountedDepth(t, m[1..]);
    }
  }

  ghost predicate Counts(t: Tree, m: string) {
    forall l :: l in Leaves(t) ==> l.Leaf? && l.frequency == Count(m, l.value)
  }

  lemma {:induction false} CountedIsWeighted(t: Tree, m: string, d: nat)
    requires Counts(t, m)
    ensures CountedDepth(t, m, d) == WeightedDepth(t, d)
  {
    match t
    case Leaf(_, _) =>
      assert t in Leaves(t);
    case Node(l, r, _) =>
      CountedIsWeighted(l, m, d + 1);
      CountedIsWeighted(r, m, d + 1);
  }

  /** With the message's own character counts at the leaves, the bits of its encoding are the cost of the tree. */
  lemma BitsAreCost(t: Tree, m: string)
    requires Distinct(t) && Counts(t, m) && forall k :: 0 <= k < |m| ==> m[k] in Letters(t)
    ensures Bits(t, m) == Cost(t)
  {
    BitsAreCountedDepth(t, m);
    CountedIsWeighted(t, m, 0);
  }

  // ----- The decoder's tree

  /** The value of the decoder's tree: Empty where the program has NULL. */
  datatype Trie = Empty | Trie(value: char, left: Trie, right: Trie)

  const FRESH := Trie('-', Empty, Empty)

  /** createTree from a node that may be missing: every character but 0 goes right. */
  ghost function Inserted(t: Trie, c: char, p: string): (r: Trie)
    ensures r != Empty
    decreases |p|
  {
    var n := if t == Empty then FRESH else t;
    if p == "" then n.(value := c)
    else if p[0] == '0' then n.(left := Inserted(n.left, c, p[1..]))
    else n.(right := Inserted(n.right, c, p[1..]))
  }

  class DecoderNode {
    var value: char
    var left: DecoderNode?
    var right: DecoderNode?
    ghost var repr: set<DecoderNode>
    ghost var trie: Trie

    ghost predicate Valid()
      reads this, repr
      ensures Valid() ==> this in repr && trie.Trie?
      decreases repr
    {
      && this in repr
      && (left != null ==> left in repr && left.repr < repr && this !in left.repr && left.Valid())
      && (right != null ==> right in repr && right.repr < repr && this !in right.repr && right.Valid())
      && (left != null && right != null ==> left.repr !! right.repr)
      && trie == Trie(value, if left == null then Empty else left.trie, if right == null then Empty else right.trie)
    }

    constructor ()
      ensures Valid() && fresh(repr) && trie == FRESH
    {
      value, left, right := '-', null, null;
      repr, trie := {this}, FRESH;
    }

    method SetLeft(child: DecoderNode)
      requires child.Valid() && this !in child.repr && this in repr
      requires right != null ==> right in repr && right.repr < repr && this !in right.repr && right.Valid() && right.repr !! child.repr
      requires trie.Trie? && trie.value == value && trie.right == TrieAt(right)
      modifies this
      ensures Valid() && repr == old(repr) + child.repr
      ensures trie == old(trie).(left := child.trie)
    {
      left := child;
      repr := repr + child.repr;
      trie := trie.(left := child.trie);
    }

    method SetRight(child: DecoderNode)
      requires child.Valid() && this !in child.repr && this in repr
      requires left != null ==> left in repr && left.repr < repr && this !in left.repr && left.Valid() && left.repr !! child.repr
      requires trie.Trie? && trie.value == value && trie.left == TrieAt(left)
      modifies this
      ensures Valid() && repr == old(repr) + child.repr
      ensures trie == old(trie).(right := child.trie)
    {
      right := child;
      repr := repr + child.repr;
      trie := trie.(right := child.trie);
    }

    predicate IsLeaf()
      requires Valid()
      reads this, repr
      ensures IsLeaf() <==> trie == Trie(value, Empty, Empty)
    {
      left == null && right == null
    }
  }

  ghost function TrieAt(n: DecoderNode?): Trie
    reads n
  {
    if n == null then Empty else n.trie
  }

  ghost function ReprOf(n: DecoderNode?): set<DecoderNode>
    reads n
  {
    if n == null then {} else n.repr
  }

  method CreateTree(curNode: DecoderNode?, character: char, prefix: string, i: nat) returns (r: DecoderNode)
    requires curNode != null ==> curNode.Valid()
    requires i <= |prefix|
    modifies ReprOf(curNode)
    ensures r.Valid() && (curNode != null ==> r == curNode)
    ensures fresh(r.repr - old(ReprOf(curNode)))
    ensures r.trie == Inserted(old(TrieAt(curNode)), character, prefix[i..])
    decreases |prefix| - i
  {
    if curNode == null {
      r := new DecoderNode();
    } else {
      r := curNode;
    }
    if i == |prefix| {
      r.value := character;
      r.trie := r.trie.(value := character);
      return;
    }
    assert prefix[i..][0] == prefix[i] && prefix[i..][1..] == prefix[i + 1..];
    if prefix[i] == '0' {
      var child := CreateTree(r.left, character, prefix, i + 1);
      r.SetLeft(child);
    } else {
      var child := CreateTree(r.right, character, prefix, i + 1);
      r.SetRight(child);
    }
  }

  // ----- Rebuilding the tree from its codes, in any order

  /** The decoder's tree for t: characters at the leaves, the default elsewhere. */
  ghost function TrieOf(t: Tree): Trie {
    match t
    case Leaf(c, _) => Trie(c, Empty, Empty)
    case Node(l, r, _) => Trie('-', TrieOf(l), TrieOf(r))
  }

  /** What is there once the codes of the characters in s have been inserted. */
  ghost function Partial(t: Tree, s: set<char>): Trie {
    if Letters(t) !! s then Empty else
      match t
      case Leaf(c, _) => Trie(c, Empty, Empty)
      case Node(l, r, _) => Trie('-', Partial(l, s), Partial(r, s))
  }

  lemma {:induction false} PartialIgnores(t: Tree, s: set<char>, c: char)
    requires c !in Letters(t)
    ensures Partial(t, s + {c}) == Partial(t, s)
  {
    if t.Node? {
      PartialIgnores(t.left, s, c);
      PartialIgnores(t.right, s, c);
    }
  }

  lemma {:induction false} PartialFull(t: Tree, s: set<char>)
    requires Letters(t) <= s
    ensures Partial(t, s) == TrieOf(t)
  {
    var c :| c in Letters(t);
    assert c in s;
    if t.Node? {
      PartialFull(t.left, s);
      PartialFull(t.right, s);
    }
  }

  lemma PartialOfNode(t: Tree, s: set<char>)
    requires t.Node? && Letters(t) !! s
    ensures Partial(t.left, s) == Empty == Partial(t.right, s)
  {
  }

  /** Inserting the code of one more character, whatever has been inserted before. */
  lemma {:induction false} InsertCode(t: Tree, s: set<char>, c: char)
    requires Distinct(t) && c in Letters(t)
    ensures Inserted(Partial(t, s), c, CodeOf(t, c)) == Partial(t, s + {c})
  {
    assert c in s + {c};
    if t.Node? {
      var p := CodeOf(t, c);
      if Letters(t) !! s {
        PartialOfNode(t, s);
      }
      if c in Letters(t.right) {
        assert p[0] == '1' && p[1..] == CodeOf(t.right, c);
        InsertCode(t.right, s, c);
        PartialIgnores(t.left, s, c);
      } else {
        assert p[0] == '0' && p[1..] == CodeOf(t.left, c);
        InsertCode(t.left, s, c);
        PartialIgnores(t.right, s, c);
      }
    }
  }

  /** The root exists from the start. */
  ghost function Rooted(t: Trie): Trie {
    if t == Empty then FRESH else t
  }

  lemma InsertedAtRoot(t: Trie, c: char, p: string)
    ensures Inserted(Rooted(t), c, p) == Inserted(t, c, p)
  {
  }

  lemma InsertNext(table: Table, t: Tree, s: set<char>, c: char, before: Trie, after: Trie)
    requires Distinct(t) && table == CodeTable(t, "") && c in table
    requires before == Rooted(Partial(t, s)) && after == Inserted(before, c, table[c][0..])
    ensures after == Rooted(Partial(t, s + {c}))
  {
    assert table[c] == CodeOf(t, c) && table[c][0..] == table[c];
    InsertedAtRoot(Partial(t, s), c, CodeOf(t, c));
    InsertCode(t, s, c);
  }

  /** If the table comes from a code tree, the result is that tree, whatever the order of iteration. */
  method GenerateHuffTree(table: Table) returns (root: DecoderNode)
    ensures root.Valid() && fresh(root.repr)
    ensures forall t :: Distinct(t) && table == CodeTable(t, "") ==> root.trie == TrieOf(t)
  {
    root := new DecoderNode();
    var rest := table.Keys;
    ghost var done := {};
    while rest != {}
      invariant root.Valid() && fresh(root.repr)
      invariant rest <= table.Keys && done == table.Keys - rest
      invariant forall t :: Distinct(t) && table == CodeTable(t, "") ==> root.trie == Rooted(Partial(t, done))
      decreases rest
    {
      var c :| c in rest;
      ghost var before := root.trie;
      root := CreateTree(root, c, table[c], 0);
      ghost var after := root.trie;
      forall t | Distinct(t) && table == CodeTable(t, "")
        ensures after == Rooted(Partial(t, done + {c}))
      {
        InsertNext(table, t, done, c, before, after);
      }
      rest := rest - {c};
      done := done + {c};
    }
    ghost var all := done;
    forall t | Distinct(t) && table == CodeTable(t, "")
      ensures Rooted(Partial(t, all)) == TrieOf(t)
    {
      PartialFull(t, all);
    }
  }

  // ----- Decoding

  ghost function Prepend(c: string, r: Option<string>): Option<string> {
    if r.None? then None else Some(c + r.value)
  }

  /** None stands for following a NULL child. */
  ghost function Decoded(root: Trie, cur: Trie, bits: string): Option<string>
    requires root.Trie? && cur.Trie?
    decreases |bits|
  {
    if bits == "" then Some("")
    else if bits[0] != '0' && bits[0] != '1' then Decoded(root, cur, bits[1..])
    else
      var next := if bits[0] == '0' then cur.left else cur.right;
      if next == Empty then None
      else if next.left == Empty && next.right == Empty then Prepend([next.value], Decoded(root, root, bits[1..]))
      else Decoded(root, next, bits[1..])
  }

  lemma PrependMore(m: string, c: char, r: Option<string>)
    ensures Prepend(m, Prepend([c], r)) == Prepend(m + [c], r)
  {
    if r.Some? {
      assert m + ([c] + r.value) == m + [c] + r.value;
    }
  }

  method DecodeMessage(huffmanTreeRoot: DecoderNode, encoded: string) returns (r: Option<string>)
    requires huffmanTreeRoot.Valid()
    ensures r == Decoded(huffmanTreeRoot.trie, huffmanTreeRoot.trie, encoded)
  {
    ghost var root := huffmanTreeRoot.trie;
    var curNode: DecoderNode := huffmanTreeRoot;
    var message := "";
    assert encoded[0..] == encoded;
    PrependNothing(Decoded(root, root, encoded));
    for i := 0 to |encoded|
      invariant curNode.Valid() && curNode.trie.Trie?
      invariant Prepend(message, Decoded(root, curNode.trie, encoded[i..])) == Decoded(root, root, encoded)
    {
      assert encoded[i..][0] == encoded[i] && encoded[i..][1..] == encoded[i + 1..];
      if encoded[i] == '0' || encoded[i] == '1' {
        var next := if encoded[i] == '0' then curNode.left else curNode.right;
        if next == null {
          return None;
        }
        curNode := next;
        if curNode.IsLeaf() {
          PrependMore(message, curNode.value, Decoded(root, root, encoded[i + 1..]));
          message := message + [curNode.value];
          curNode := huffmanTreeRoot;
        }
      }
    }
    assert encoded[|encoded|..] == "";
    assert message + "" == message;
    r := Some(message);
  }

  lemma PrependNothing(r: Option<string>)
    ensures Prepend("", r) == r
  {
    if r.Some? {
      assert "" + r.value == r.value;
    }
  }

  // ----- The round trip

  /** What the encoder prints for one character: its code and the white space after it. */
  ghost function EncodedLetter(t: Tree, c: char): string
    requires c in Letters(t)
  {
    CodeOf(t, c) + if c == ' ' then " \n" else " "
  }

  ghost function Encoded(t: Tree, m: string): string
    requires forall k :: 0 <= k < |m| ==> m[k] in Letters(t)
  {
    if m == "" then "" else EncodedLetter(t, m[0]) + Encoded(t, m[1..])
  }

  lemma {:induction false} DecodeCode(root: Trie, t: Tree, c: char, rest: string)
    requires Distinct(t) && t.Node? && c in Letters(t) && root.Trie?
    ensures Decoded(root, TrieOf(t), CodeOf(t, c) + rest) == Prepend([c], Decoded(root, root, rest))
  {
    var p := CodeOf(t, c);
    var child := if c in Letters(t.right) then t.right else t.left;
    assert (p + rest)[0] == p[0] && (p + rest)[1..] == CodeOf(child, c) + rest;
    if child.Node? {
      DecodeCode(root, child, c, rest);
    } else {
      assert CodeOf(child, c) + rest == rest;
    }
  }

  lemma SkipBlanks(root: Trie, blanks: string, rest: string)
    requires root.Trie? && (blanks == " " || blanks == " \n")
    ensures Decoded(root, root, blanks + rest) == Decoded(root, root, rest)
  {
    assert (blanks + rest)[1..] == blanks[1..] + rest;
    if blanks == " \n" {
      assert (blanks[1..] + rest)[1..] == rest;
    } else {
      assert blanks[1..] + rest == rest;
    }
  }

  /** With at least two leaves, decoding what was encoded gives the message back. */
  lemma {:induction false} RoundTrip(t: Tree, m: string)
    requires Distinct(t) && t.Node? && forall k :: 0 <= k < |m| ==> m[k] in Letters(t)
    ensures Decoded(TrieOf(t), TrieOf(t), Encoded(t, m)) == Some(m)
  {
    hide *;
    if m == "" {
      EncodedFirst(t, m, "");
    } else {
      var blanks := if m[0] == ' ' then " \n" else " ";
      EncodedFirst(t, m, blanks);
      DecodeCode(TrieOf(t), t, m[0], blanks + Encoded(t, m[1..]));
      SkipBlanks(TrieOf(t), blanks, Encoded(t, m[1..]));
      RoundTrip(t, m[1..]);
      PrependFirst(m);
    }
  }

  lemma EncodedFirst(t: Tree, m: string, blanks: string)
    requires t.Node? && forall k :: 0 <= k < |m| ==> m[k] in Letters(t)
    ensures TrieOf(t).Trie?
    ensures m == "" ==> Encoded(t, m) == "" && Decoded(TrieOf(t), TrieOf(t), "") == Some("")
    ensures m != "" && blanks == (if m[0] == ' ' then " \n" else " ") ==> Encoded(t, m) == CodeOf(t, m[0]) + (blanks + Encoded(t, m[1..]))
  {
    hide CodeOf;
    if m != "" {
      assert CodeOf(t, m[0]) + blanks + Encoded(t, m[1..]) == CodeOf(t, m[0]) + (blanks + Encoded(t, m[1..]));
    }
  }

  lemma PrependFirst(m: string)
    requires m != ""
    ensures Prepend([m[0]], Some(m[1..])) == Some(m)
  {
    assert [m[0]] + m[1..] == m;
  }

  lemma {:induction false} OneLeafDecodesNothing(t: Tree, m: string)
    requires t.Leaf? && forall k :: 0 <= k < |m| ==> m[k] in Letters(t)
    ensures Decoded(TrieOf(t), TrieOf(t), Encoded(t, m)) == Some("")
  {
    if m != "" {
      var blanks := if m[0] == ' ' then " \n" else " ";
      assert Encoded(t, m) == blanks + Encoded(t, m[1..]);
      SkipBlanks(TrieOf(t), blanks, Encoded(t, m[1..]));
      OneLeafDecodesNothing(t, m[1..]);
    }
  }

  /** A text of one repeated character has the empty code, and only the empty message survives that. */
  lemma RoundTripIff(t: Tree, m: string)
    requires Distinct(t) && forall k :: 0 <= k < |m| ==> m[k] in Letters(t)
    ensures Decoded(TrieOf(t), TrieOf(t), Encoded(t, m)) == Some(m) <==> t.Node? || m == ""
  {
    if t.Node? {
      RoundTrip(t, m);
    } else {
      OneLeafDecodesNothing(t, m);
    }
  }

  /** It does not survive: from the text "a" nothing is decoded. */
  lemma OneLetterIsLost()
    ensures var t := Leaf('a', 1); Decoded(TrieOf(t), TrieOf(t), Encoded(t, "a")) != Some("a")
  {
    RoundTripIff(Leaf('a', 1), "a");
  }
}
