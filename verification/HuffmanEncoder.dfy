/** The encoder from text to table (readFile in data-structures/lab_10/huffmanenc.cpp). */
module HuffmanEncoder {
  import opened HuffmanTrees
  import opened Heaps
  import opened Huffman
  import opened HuffmanCodes
  import opened Wrappers
  import opened IntSets

  predicate Printable(c: char) { ' ' <= c <= '~' }

  ghost function Printed(text: string): (m: string)
    ensures |m| <= |text| && forall k :: 0 <= k < |m| ==> Printable(m[k]) && m[k] in text
  {
    if text == "" then "" else
      var m := Printed(text[..|text| - 1]);
      if Printable(text[|text| - 1]) then m + [text[|text| - 1]] else m
  }

  lemma {:induction false} CountAppended(m: string, d: char, c: char)
    ensures Count(m + [d], c) == Count(m, c) + if c == d then 1 else 0
  {
    if m == "" {
      assert (m + [d])[1..] == "";
    } else {
      assert (m + [d])[1..] == m[1..] + [d];
      CountAppended(m[1..], d, c);
    }
  }

  /** The printable characters of two texts, one behind the other, are those of the texts in this order. */
  lemma {:induction false} PrintedJoined(a: string, b: string)
    ensures Printed(a + b) == Printed(a) + Printed(b)
  {
    if b == "" {
      assert a + b == a;
    } else {
      var last := |b| - 1;
      PrintedJoined(a, b[..last]);
      assert (a + b)[..|a + b| - 1] == a + b[..last];
    }
  }

  /** A character stands for itself if it lies between the blank and the tilde, else for nothing. */
  lemma PrintedLetter(c: char)
    ensures Printed([c]) == if 32 <= c as int <= 126 then [c] else ""
  {
    assert [c][..0] == "";
  }

  /** The count of a character is the number of places where it stands. */
  lemma {:induction false} CountIsPlaces(m: string, c: char)
    ensures Count(m, c) == |set k | 0 <= k < |m| && m[k] == c|
  {
    if m == "" {
      assert Places(m, c) == {};
    } else {
      var n := m[..|m| - 1];
      assert m == n + [m[|m| - 1]];
      CountAppended(n, m[|m| - 1], c);
      CountIsPlaces(n, c);
      assert Places(m, c) == Places(n, c) + if m[|m| - 1] == c then {|m| - 1} else {};
    }
  }

  ghost function Places(m: string, c: char): set<int> {
    set k | 0 <= k < |m| && m[k] == c
  }

  /** Every printable character is kept as often as the text has it. */
  lemma {:induction false} PrintedCount(text: string, c: char)
    ensures Count(Printed(text), c) == if 32 <= c as int <= 126 then |set k | 0 <= k < |text| && text[k] == c| else 0
  {
    if text != "" {
      var last := |text| - 1;
      PrintedCount(text[..last], c);
      CountIsPlaces(text[..last], c);
      CountIsPlaces(text, c);
      assert text == text[..last] + [text[last]];
      CountAppended(text[..last], text[last], c);
      CountAppended(Printed(text[..last]), text[last], c);
    } else {
      CountIsPlaces(text, c);
    }
  }

  lemma {:induction false} CountOfPresent(m: string, c: char)
    ensures c in m <==> Count(m, c) > 0
  {
    if m != "" {
      CountOfPresent(m[1..], c);
    }
  }

  ghost predicate CountsOf(freq: map<char, nat>, m: string) {
    && (forall c :: c in freq <==> c in m)
    && (forall c :: c in freq ==> freq[c] == Count(m, c))
  }

  lemma {:induction false} CountOfAbsent(m: string, c: char)
    requires c !in m
    ensures Count(m, c) == 0
  {
    if m != "" {
      CountOfAbsent(m[1..], c);
    }
  }

  method CountLetters(text: string) returns (freq: map<char, nat>)
    ensures forall c :: c in freq <==> 32 <= c as int <= 126 && c in text
    ensures forall c :: c in freq ==> freq[c] == |set k | 0 <= k < |text| && text[k] == c|
    ensures CountsOf(freq, Printed(text))
  {
    freq := map[];
    for i := 0 to |text|
      invariant CountsOf(freq, Printed(text[..i]))
    {
      var g := text[i];
      ghost var m := Printed(text[..i]);
      assert text[..i + 1][..i] == text[..i];
      if Printable(g) {
        forall c {
          CountAppended(m, g, c);
        }
        if g !in freq {
          CountOfAbsent(m, g);
          freq := freq[g := 1];
        } else {
          freq := freq[g := freq[g] + 1];
        }
      }
    }
    assert text[..|text|] == text;
    forall c
      ensures Count(Printed(text), c) == if 32 <= c as int <= 126 then |set k | 0 <= k < |text| && text[k] == c| else 0
      ensures (c in Printed(text) <==> Count(Printed(text), c) > 0) && (c in text <==> Count(text, c) > 0)
      ensures Count(text, c) == |set k | 0 <= k < |text| && text[k] == c|
    {
      PrintedCount(text, c);
      CountOfPresent(Printed(text), c);
      CountOfPresent(text, c);
      CountIsPlaces(text, c);
    }
  }

  // ----- The leaves handed to the heap

  ghost function LeafOf(m: string, c: char): Tree { Leaf(c, Count(m, c)) }

  /** ts are the leaves for the characters cs, with their counts in m. */
  ghost function LeavesOf(m: string, cs: seq<char>): (ts: seq<Tree>)
    ensures |ts| == |cs| && forall k :: 0 <= k < |cs| ==> ts[k] == LeafOf(m, cs[k])
  {
    seq(|cs|, k requires 0 <= k < |cs| => LeafOf(m, cs[k]))
  }

  ghost predicate NoRepeats(cs: seq<char>) {
    forall i, j :: 0 <= i < j < |cs| ==> cs[i] != cs[j]
  }

  lemma Appended(m: string, cs: seq<char>, c: char)
    ensures multiset(LeavesOf(m, cs + [c])) == multiset(LeavesOf(m, cs)) + multiset{LeafOf(m, c)}
    ensures NoRepeats(cs) && c !in cs ==> NoRepeats(cs + [c])
    ensures forall d :: d in cs + [c] <==> d in cs || d == c
  {
    assert LeavesOf(m, cs + [c]) == LeavesOf(m, cs) + [LeafOf(m, c)];
  }

  method FillHeap(freq: map<char, nat>, ghost m: string) returns (heap: Heap, ghost cs: seq<char>)
    requires CountsOf(freq, m) && |m| < UINT_LIMIT
    ensures fresh(heap) && heap.Valid() && heap.Contents() == multiset(LeavesOf(m, cs))
    ensures NoRepeats(cs) && forall c :: c in cs <==> c in m
  {
    heap := new Heap();
    cs := [];
    var rest := freq.Keys;
    while rest != {}
      invariant fresh(heap) && heap.Valid() && heap.Contents() == multiset(LeavesOf(m, cs))
      invariant rest <= freq.Keys && NoRepeats(cs)
      invariant forall c :: c in cs <==> c in freq.Keys - rest
      decreases rest
    {
      var c :| c in rest;
      CountIsSmall(m, c);
      Appended(m, cs, c);
      heap.InsertLeaf(c, freq[c]);
      cs := cs + [c];
      rest := rest - {c};
    }
  }

  lemma {:induction false} CountIsSmall(m: string, c: char)
    ensures Count(m, c) <= |m|
  {
    if m != "" {
      CountIsSmall(m[1..], c);
    }
  }

  /** Adding a letter to the message adds one to the total. */
  lemma {:induction false} WeightOfOneMore(m: string, cs: seq<char>)
    requires NoRepeats(cs) && m != ""
    ensures TotalWeight(LeavesOf(m, cs)) == TotalWeight(LeavesOf(m[1..], cs)) + if m[0] in cs then 1 else 0
  {
    if cs != [] {
      assert LeavesOf(m, cs)[1..] == LeavesOf(m, cs[1..]) && LeavesOf(m[1..], cs)[1..] == LeavesOf(m[1..], cs[1..]);
      WeightOfOneMore(m, cs[1..]);
      assert forall c :: c in cs <==> c == cs[0] || c in cs[1..];
    }
  }

  lemma {:induction false} WeightOfNone(cs: seq<char>)
    ensures TotalWeight(LeavesOf("", cs)) == 0
  {
    if cs != [] {
      assert LeavesOf("", cs)[1..] == LeavesOf("", cs[1..]);
      WeightOfNone(cs[1..]);
    }
  }

  lemma {:induction false} WeightIsLength(m: string, cs: seq<char>)
    requires NoRepeats(cs)
    ensures TotalWeight(LeavesOf(m, cs)) <= |m|
  {
    if m == "" {
      WeightOfNone(cs);
    } else {
      WeightOfOneMore(m, cs);
      WeightIsLength(m[1..], cs);
    }
  }

  // ----- Distinct characters at the leaves

  ghost predicate Separate(m: multiset<Tree>) {
    && (forall a, b :: a in m && b in m && a.Leaf? && b.Leaf? && a.value == b.value ==> a == b)
    && (forall a :: a in m ==> m[a] == 1)
  }

  lemma {:induction false} LetterHasLeaf(t: Tree, c: char) returns (l: Tree)
    requires c in Letters(t)
    ensures l in Leaves(t) && l.Leaf? && l.value == c
  {
    match t
    case Leaf(_, _) => l := t;
    case Node(x, y, _) =>
      if c in Letters(x) {
        l := LetterHasLeaf(x, c);
      } else {
        l := LetterHasLeaf(y, c);
      }
  }

  lemma {:induction false} LetterWithoutLeaf(t: Tree, c: char)
    requires forall l :: l in Leaves(t) && l.Leaf? ==> l.value != c
    ensures c !in Letters(t)
  {
    match t
    case Leaf(_, _) =>
      assert t in Leaves(t);
    case Node(x, y, _) =>
      LetterWithoutLeaf(x, c);
      LetterWithoutLeaf(y, c);
  }

  lemma {:induction false} LeafHasLetter(t: Tree, l: Tree)
    requires l in Leaves(t)
    ensures l.Leaf? && l.value in Letters(t)
  {
    if t.Node? {
      if l in Leaves(t.left) {
        LeafHasLetter(t.left, l);
      } else {
        LeafHasLetter(t.right, l);
      }
    }
  }

  lemma SeparateParts(m: multiset<Tree>, a: multiset<Tree>, b: multiset<Tree>)
    requires Separate(m) && m == a + b
    ensures Separate(a) && Separate(b) && forall x :: x in a ==> x !in b
  {
    forall x | x in a
      ensures a[x] == 1 && x !in b
    {
      assert m[x] == a[x] + b[x];
    }
    forall x | x in b
      ensures b[x] == 1
    {
      assert m[x] == a[x] + b[x];
    }
  }

  lemma {:induction false} SeparateIsDistinct(t: Tree)
    requires Separate(Leaves(t))
    ensures Distinct(t)
  {
    if t.Node? {
      SeparateParts(Leaves(t), Leaves(t.left), Leaves(t.right));
      SeparateIsDistinct(t.left);
      SeparateIsDistinct(t.right);
      forall c | c in Letters(t.left)
        ensures c !in Letters(t.right)
      {
        var a := LetterHasLeaf(t.left, c);
        forall l | l in Leaves(t.right)
          ensures l.Leaf? ==> l.value != c
        {
          assert l in Leaves(t) && a in Leaves(t) && l != a;
        }
        LetterWithoutLeaf(t.right, c);
      }
    }
  }

  lemma LeavesAreSeparate(m: string, cs: seq<char>)
    requires NoRepeats(cs)
    ensures Separate(multiset(LeavesOf(m, cs)))
  {
    var ts := LeavesOf(m, cs);
    forall a | a in multiset(ts)
      ensures multiset(ts)[a] == 1
    {
      var p := TreeIndex(ts, a);
      assert ts == ts[..p] + [a] + ts[p + 1..];
      assert a !in ts[..p] && a !in ts[p + 1..];
    }
  }

  // ----- The whole encoder

  /** The letters of the tree are those of the message, and its leaves hold their counts. */
  lemma TreeFitsMessage(t: Tree, m: string, cs: seq<char>)
    requires Leaves(t) == multiset(LeavesOf(m, cs)) && NoRepeats(cs) && forall c :: c in cs <==> c in m
    ensures Distinct(t) && Counts(t, m) && forall c :: c in Letters(t) <==> c in m
  {
    var ts := LeavesOf(m, cs);
    LeavesAreSeparate(m, cs);
    SeparateIsDistinct(t);
    forall l | l in Leaves(t)
      ensures l.Leaf? && l.frequency == Count(m, l.value) && l.value in m
    {
      var p := TreeIndex(ts, l);
      assert cs[p] in cs;
    }
    forall c | c in Letters(t)
      ensures c in m
    {
      var l := LetterHasLeaf(t, c);
    }
    forall c | c in m
      ensures c in Letters(t)
    {
      var k :| 0 <= k < |cs| && cs[k] == c;
      assert ts[k] in multiset(ts);
      LeafHasLetter(t, ts[k]);
    }
  }

  /** The bits that a code tree on the message's counts needs. */
  lemma BitsOfMessage(t: Tree, m: string, cs: seq<char>)
    requires Leaves(t) == multiset(LeavesOf(m, cs)) && NoRepeats(cs) && forall c :: c in cs <==> c in m
    ensures (forall k :: 0 <= k < |m| ==> m[k] in Letters(t)) && Bits(t, m) == Cost(t)
  {
    TreeFitsMessage(t, m, cs);
    hide *;
    BitsAreCost(t, m);
  }

  /** Every code tree on the same leaves needs at least as many bits for the message. */
  lemma FewestBits(t: Tree, u: Tree, m: string, cs: seq<char>)
    requires Leaves(t) == Leaves(u) == multiset(LeavesOf(m, cs)) && NoRepeats(cs) && forall c :: c in cs <==> c in m
    requires Optimal(t)
    ensures forall k :: 0 <= k < |m| ==> m[k] in Letters(t) && m[k] in Letters(u)
    ensures Bits(t, m) <= Bits(u, m)
  {
    assert Cost(t) <= Cost(u);
    hide *;
    BitsOfMessage(t, m, cs);
    BitsOfMessage(u, m, cs);
  }

  /** The tree and the table for a text; there is neither for a text without printable characters. */
  method BuildTable(text: string) returns (root: Option<Tree>, table: Table)
    requires |Printed(text)| < UINT_LIMIT
    ensures root.None? <==> Printed(text) == ""
    ensures root.None? ==> table == map[]
    ensures root.Some? ==> Distinct(root.value) && Weighed(root.value) && table == CodeTable(root.value, "")
    ensures root.Some? ==> Counts(root.value, Printed(text)) && forall c :: c in Letters(root.value) <==> c in Printed(text)
    ensures root.Some? ==> forall c :: c in Letters(root.value) <==> 32 <= c as int <= 126 && c in text
    ensures root.Some? ==> forall l :: l in Leaves(root.value) ==> l.Leaf? && l.frequency == |set k | 0 <= k < |text| && text[k] == l.value|
    ensures root.Some? ==> forall u {:trigger Leaves(u)} :: Leaves(u) == Leaves(root.value) ==>
      && (forall k :: 0 <= k < |Printed(text)| ==> Printed(text)[k] in Letters(u))
      && Bits(root.value, Printed(text)) <= Bits(u, Printed(text))
  {
    ghost var m := Printed(text);
    var freq := CountLetters(text);
    var heap, cs := FillHeap(freq, m);
    WeightIsLength(m, cs);
    root := BuildHuffmanTree(heap, LeavesOf(m, cs));
    if root.Some? {
      TreeFitsMessage(root.value, m, cs);
      forall u {:trigger Leaves(u)} | Leaves(u) == Leaves(root.value)
        ensures (forall k :: 0 <= k < |m| ==> m[k] in Letters(u)) && Bits(root.value, m) <= Bits(u, m)
      {
        FewestBits(root.value, u, m, cs);
      }
    }
    if m != "" {
      assert m[0] in cs;
    }
    table := GenerateLookup(root);
    forall c
      ensures Count(m, c) == if 32 <= c as int <= 126 then |set k | 0 <= k < |text| && text[k] == c| else 0
      ensures c in m ==> 32 <= c as int <= 126
    {
      PrintedCount(text, c);
      CountOfPresent(m, c);
    }
  }

  // ----- The second reading: the encoded text

  lemma {:induction false} EncodedAppended(t: Tree, m: string, c: char)
    requires c in Letters(t) && forall k :: 0 <= k < |m| ==> m[k] in Letters(t)
    ensures Encoded(t, m + [c]) == Encoded(t, m) + EncodedLetter(t, c)
    ensures Bits(t, m + [c]) == Bits(t, m) + |CodeOf(t, c)|
  {
    if m == "" {
      assert (m + [c])[1..] == "";
      assert Encoded(t, "") == "" && Encoded(t, m + [c]) == EncodedLetter(t, c) + Encoded(t, "");
    } else {
      assert (m + [c])[1..] == m[1..] + [c];
      EncodedAppended(t, m[1..], c);
    }
  }

  lemma {:induction false} CodeIsBits(t: Tree, c: char)
    requires c in Letters(t)
    ensures forall k :: 0 <= k < |CodeOf(t, c)| ==> CodeOf(t, c)[k] == '0' || CodeOf(t, c)[k] == '1'
  {
    if t.Node? {
      CodeIsBits(if c in Letters(t.right) then t.right else t.left, c);
    }
  }

  lemma BitsWritten(a: string, code: string, blanks: string)
    requires forall k :: 0 <= k < |code| ==> code[k] == '0' || code[k] == '1'
    requires blanks == " " || blanks == " \n"
    ensures BitCount(a + (code + blanks)) == BitCount(a) + |code|
  {
    var s := a + (code + blanks);
    assert BitPlaces(s) == BitPlaces(a) + Interval(|a|, |code|);
  }

  ghost function BitPlaces(s: string): set<int> {
    set k | 0 <= k < |s| && (s[k] == '0' || s[k] == '1')
  }

  /** The bits written, blanks not counted. */
  ghost function BitCount(s: string): nat { |BitPlaces(s)| }

  /** The bits of a message are the zeros and ones of its encoding. */
  lemma {:induction false} BitsAreWritten(t: Tree, m: string)
    requires forall k :: 0 <= k < |m| ==> m[k] in Letters(t)
    ensures Bits(t, m) == |set k | 0 <= k < |Encoded(t, m)| && (Encoded(t, m)[k] == '0' || Encoded(t, m)[k] == '1')|
  {
    if m == "" {
      assert BitPlaces("") == {};
    } else {
      var n, c := m[..|m| - 1], m[|m| - 1];
      assert m == n + [c];
      BitsAreWritten(t, n);
      EncodedAppended(t, n, c);
      CodeIsBits(t, c);
      BitsWritten(Encoded(t, n), CodeOf(t, c), if c == ' ' then " \n" else " ");
      assert BitPlaces(Encoded(t, m)) == set k | 0 <= k < |Encoded(t, m)| && (Encoded(t, m)[k] == '0' || Encoded(t, m)[k] == '1');
      assert BitPlaces(Encoded(t, n)) == set k | 0 <= k < |Encoded(t, n)| && (Encoded(t, n)[k] == '0' || Encoded(t, n)[k] == '1');
    }
  }

  /**
    Writes the text by the table that was built for it, and counts symbols and
    bits. With two letters or more, what is written decodes to the printable
    characters of the text.
   */
  method EncodeText(text: string, table: Table, ghost root: Tree) returns (encoded: string, numSymbols: nat, numBits: nat)
    requires Distinct(root) && table == CodeTable(root, "") && forall c :: c in Letters(root) <==> c in Printed(text)
    ensures encoded == Encoded(root, Printed(text)) && numSymbols == |Printed(text)|
    ensures numSymbols == |set k | 0 <= k < |text| && 32 <= text[k] as int <= 126|
    ensures numBits == Bits(root, Printed(text)) == |set k | 0 <= k < |encoded| && (encoded[k] == '0' || encoded[k] == '1')|
    ensures root.Node? ==> Decoded(TrieOf(root), TrieOf(root), encoded) == Some(Printed(text))
  {
    encoded, numSymbols, numBits := "", 0, 0;
    hide *;
    NothingEncoded(root, text);
    for i := 0 to |text|
      invariant EncodedTo(root, text, i, encoded, numSymbols, numBits)
    {
      var g := text[i];
      LetterEncoded(root, text, i, encoded, numSymbols, numBits);
      if g in table {
        encoded := encoded + table[g] + " ";
        if g == ' ' {
          encoded := encoded + "\n";
        }
        numSymbols := numSymbols + 1;
        numBits := numBits + |table[g]|;
      }
    }
    AllEncoded(root, text, encoded, numSymbols, numBits);
  }

  /** The loop's state at place i. */
  ghost predicate EncodedTo(t: Tree, text: string, i: nat, encoded: string, numSymbols: nat, numBits: nat)
    requires i <= |text|
  {
    && (forall k :: 0 <= k < |Printed(text[..i])| ==> Printed(text[..i])[k] in Letters(t))
    && encoded == Encoded(t, Printed(text[..i])) && numBits == Bits(t, Printed(text[..i]))
    && numSymbols == |Printed(text[..i])| == |PrintablePlaces(text, i)|
  }

  lemma LetterEncoded(t: Tree, text: string, i: nat, encoded: string, numSymbols: nat, numBits: nat)
    requires i < |text| && EncodedTo(t, text, i, encoded, numSymbols, numBits) && forall c :: c in Letters(t) <==> c in Printed(text)
    ensures text[i] in CodeTable(t, "") ==> var code := CodeTable(t, "")[text[i]];
      EncodedTo(t, text, i + 1, if text[i] == ' ' then encoded + code + " " + "\n" else encoded + code + " ", numSymbols + 1, numBits + |code|)
    ensures text[i] !in CodeTable(t, "") ==> EncodedTo(t, text, i + 1, encoded, numSymbols, numBits)
  {
    var g := text[i];
    hide Encoded, Bits, Printed, CodeOf, CodeTable, EncodedLetter, PrintablePlaces, Letters;
    NextLetter(text, i);
    NextPlace(text, i);
    PrefixPrinted(text, i + 1);
    IsPrinted(text, i);
    TableSays(t, g);
    if g in Letters(t) {
      EncodedAppended(t, Printed(text[..i]), g);
      EncodedLetterIs(encoded, t, g);
    }
  }

  lemma AllEncoded(t: Tree, text: string, encoded: string, numSymbols: nat, numBits: nat)
    requires EncodedTo(t, text, |text|, encoded, numSymbols, numBits) && Distinct(t)
    ensures (forall k :: 0 <= k < |Printed(text)| ==> Printed(text)[k] in Letters(t)) && encoded == Encoded(t, Printed(text))
    ensures numSymbols == |Printed(text)| == |set k | 0 <= k < |text| && 32 <= text[k] as int <= 126|
    ensures numBits == Bits(t, Printed(text)) == |set k | 0 <= k < |encoded| && (encoded[k] == '0' || encoded[k] == '1')|
    ensures t.Node? ==> Decoded(TrieOf(t), TrieOf(t), encoded) == Some(Printed(text))
  {
    hide Encoded, Bits, Printed, Letters, Decoded, TrieOf;
    assert text[..|text|] == text;
    BitsAreWritten(t, Printed(text));
    AllPlaces(text);
    if t.Node? {
      RoundTrip(t, Printed(text));
    }
  }

  lemma NothingEncoded(t: Tree, text: string)
    ensures EncodedTo(t, text, 0, "", 0, 0)
  {
    assert PrintablePlaces(text, 0) == {};
  }

  lemma AllPlaces(text: string)
    ensures PrintablePlaces(text, |text|) == set k | 0 <= k < |text| && 32 <= text[k] as int <= 126
  {
  }

  lemma IsPrinted(text: string, i: nat)
    requires i < |text|
    ensures text[i] in Printed(text) <==> 32 <= text[i] as int <= 126
  {
    PrintedLetters(text);
  }

  lemma TableSays(t: Tree, c: char)
    ensures c in CodeTable(t, "") <==> c in Letters(t)
    ensures c in Letters(t) ==> CodeTable(t, "")[c] == CodeOf(t, c)
  {
  }

  lemma EncodedLetterIs(s: string, t: Tree, c: char)
    requires c in Letters(t)
    ensures s + EncodedLetter(t, c) == if c == ' ' then s + CodeOf(t, c) + " " + "\n" else s + CodeOf(t, c) + " "
  {
  }

  lemma PrefixPrinted(text: string, i: nat)
    requires i <= |text|
    ensures forall k :: 0 <= k < |Printed(text[..i])| ==> Printed(text[..i])[k] in Printed(text)
  {
    assert text == text[..i] + text[i..];
    PrintedJoined(text[..i], text[i..]);
  }

  lemma NextLetter(text: string, i: nat)
    requires i < |text|
    ensures Printed(text[..i + 1]) == if 32 <= text[i] as int <= 126 then Printed(text[..i]) + [text[i]] else Printed(text[..i])
  {
    assert text[..i + 1] == text[..i] + [text[i]];
    PrintedJoined(text[..i], [text[i]]);
    PrintedLetter(text[i]);
  }

  ghost function PrintablePlaces(text: string, i: nat): set<int>
    requires i <= |text|
  {
    set k | 0 <= k < i && 32 <= text[k] as int <= 126
  }

  lemma NextPlace(text: string, i: nat)
    requires i < |text|
    ensures |PrintablePlaces(text, i + 1)| == |PrintablePlaces(text, i)| + if 32 <= text[i] as int <= 126 then 1 else 0
  {
    assert PrintablePlaces(text, i + 1) == PrintablePlaces(text, i) + if 32 <= text[i] as int <= 126 then {i} else {};
  }

  lemma {:induction false} PrintedLetters(text: string)
    ensures forall k :: 0 <= k < |text| ==> (text[k] in Printed(text) <==> 32 <= text[k] as int <= 126)
    ensures forall k :: 0 <= k < |Printed(text)| ==> 32 <= Printed(text)[k] as int <= 126
  {
    forall k | 0 <= k < |text| && 32 <= text[k] as int <= 126
      ensures text[k] in Printed(text)
    {
      assert text == text[..k] + [text[k]] + text[k + 1..];
      PrintedJoined(text[..k] + [text[k]], text[k + 1..]);
      PrintedJoined(text[..k], [text[k]]);
      PrintedLetter(text[k]);
    }
  }
}
