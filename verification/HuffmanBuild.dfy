/** Greedy construction of the page's code tree. */
module HuffmanBuild {
  import opened Prelude
  import opened Bytes
  import opened PrefixTree
  import opened TreeWire
  import opened Optimality

  /** A work-list node: the subtree, its weight, and its age. */
  datatype Item = Item(tree: Tree, weight: nat, order: nat)

  predicate Before(a: Item, b: Item)
  {
    if a.weight != b.weight then a.weight < b.weight else a.order < b.order
  }

  function Insert(x: Item, s: seq<Item>): (r: seq<Item>)
    ensures |r| == |s| + 1
  {
    if s == [] || !Before(s[0], x) then [x] + s else [s[0]] + Insert(x, s[1..])
  }

  /** The stable sort by weight, then age. */
  function Sorted(s: seq<Item>): (r: seq<Item>)
    ensures |r| == |s|
  {
    if s == [] then [] else Insert(s[0], Sorted(s[1..]))
  }

  /** One leaf for every byte below n that occurs, in symbol order. */
  function LeafItems(data: seq<byte>, n: nat): seq<Item>
    requires n <= 256
  {
    if n == 0 then []
    else
      var before := LeafItems(data, n - 1);
      if multiset(data)[n - 1] > 0 then before + [Item(Leaf(n - 1), multiset(data)[n - 1], |before|)] else before
  }

  /** The starting work list, topped up to two leaves when fewer than two bytes occur. */
  function Initial(data: seq<byte>): seq<Item>
  {
    var nodes := LeafItems(data, 256);
    if |nodes| == 1 then
      var dummy := if nodes[0].tree.Node? && nodes[0].tree.symbol == 0 then 1 else 0;
      nodes + [Item(Leaf(dummy), 0, 1)]
    else if |nodes| == 0 then [Item(Leaf(0), 1, 0), Item(Leaf(1), 0, 1)]
    else nodes
  }

  function MergeStep(items: seq<Item>, synthetic: word, order: nat): (r: seq<Item>)
    requires |items| >= 2
    ensures |r| == |items| - 1
  {
    var s := Sorted(items);
    s[2..] + [Item(Node(synthetic, s[0].tree, s[1].tree), s[0].weight + s[1].weight, order)]
  }

  function MergeAll(items: seq<Item>, synthetic: word, order: nat): Tree
    requires |items| >= 1
    decreases |items|
  {
    if |items| == 1 then items[0].tree
    else MergeAll(MergeStep(items, synthetic, order), ToWord(synthetic + 1), order + 1)
  }

  function BuildTree(data: seq<byte>): Tree
  {
    InitialSize(data);
    MergeAll(Initial(data), 256, |Initial(data)|)
  }

  lemma {:induction false} InsertBag(x: Item, s: seq<Item>)
    ensures multiset(Insert(x, s)) == multiset(s) + multiset{x}
  {
    if s != [] {
      InsertBag(x, s[1..]);
      assert s == [s[0]] + s[1..];
    }
  }

  lemma {:induction false} SortedBag(s: seq<Item>)
    ensures multiset(Sorted(s)) == multiset(s)
  {
    if s != [] {
      SortedBag(s[1..]);
      InsertBag(s[0], Sorted(s[1..]));
      assert s == [s[0]] + s[1..];
    }
  }

  lemma SameMembers(a: seq<Item>, b: seq<Item>)
    requires multiset(a) == multiset(b)
    ensures forall x :: x in a <==> x in b
  {
    forall x
      ensures x in a <==> x in b
    {
      assert x in a <==> x in multiset(a);
      assert x in b <==> x in multiset(b);
    }
  }

  /** The order of the comparison in the source: by weight, and by age among equal weights. */
  predicate InOrder(s: seq<Item>)
  {
    forall i, j :: 0 <= i < j < |s| ==> !Before(s[j], s[i])
  }

  lemma {:induction false} InsertInOrder(x: Item, s: seq<Item>)
    requires InOrder(s)
    ensures InOrder(Insert(x, s))
  {
    if s != [] && Before(s[0], x) {
      var t := Insert(x, s[1..]);
      InsertInOrder(x, s[1..]);
      InsertBag(x, s[1..]);
      forall j | 0 <= j < |t|
        ensures !Before(t[j], s[0])
      {
        assert t[j] in multiset(t);
      }
    }
  }

  lemma {:induction false} SortedInOrder(s: seq<Item>)
    ensures InOrder(Sorted(s))
  {
    if s != [] {
      SortedInOrder(s[1..]);
      InsertInOrder(s[0], Sorted(s[1..]));
    }
  }

  /** Every node is younger than the next one to be made, and no two have the same age. */
  ghost predicate Aged(items: seq<Item>, order: nat)
  {
    && (forall x :: x in items ==> x.order < order)
    && (forall x, y :: x in items && y in items && x.order == y.order ==> x == y)
    && (forall x :: multiset(items)[x] <= 1)
  }

  lemma SameHead(s: seq<Item>, t: seq<Item>, order: nat)
    requires s != [] && Aged(s, order) && multiset(s) == multiset(t) && InOrder(s) && InOrder(t)
    ensures |t| == |s| && s[0] == t[0]
  {
    assert |t| == |multiset(t)| == |multiset(s)| == |s|;
    SameMembers(s, t);
    assert s[0] in t && t[0] in s;
    assert !Before(t[0], s[0]) && !Before(s[0], t[0]);
  }

  lemma TailAged(s: seq<Item>, order: nat)
    requires s != [] && Aged(s, order)
    ensures Aged(s[1..], order)
  {
    HeadAndTail(s);
    assert forall x :: x in s[1..] ==> x in s;
  }

  /** With distinct ages there is only one way to sort: the library's sort and any other one that
      meets the comparison agree. */
  lemma {:induction false} OneSorting(s: seq<Item>, t: seq<Item>, order: nat)
    requires Aged(s, order) && multiset(s) == multiset(t) && InOrder(s) && InOrder(t)
    ensures s == t
  {
    if s == [] {
      assert |t| == |multiset(t)| == |multiset(s)| == 0;
    } else {
      hide Aged, Before;
      SameHead(s, t, order);
      HeadAndTail(s);
      HeadAndTail(t);
      TailAged(s, order);
      OneSorting(s[1..], t[1..], order);
    }
  }

  lemma HeadAndTail(s: seq<Item>)
    requires s != []
    ensures s == [s[0]] + s[1..] && multiset(s[1..]) == multiset(s) - multiset{s[0]}
  {
    assert s == [s[0]] + s[1..];
  }

  lemma MergeAges(items: seq<Item>, synthetic: word, order: nat)
    requires |items| >= 2 && Aged(items, order)
    ensures Aged(MergeStep(items, synthetic, order), order + 1)
  {
    hide Sorted;
    var s := Sorted(items);
    SortedBag(items);
    SameMembers(items, s);
    assert s == s[..2] + s[2..];
    assert multiset(s[2..]) <= multiset(s);
  }

  lemma {:induction false} LeafAges(data: seq<byte>, n: nat)
    requires n <= 256
    ensures Aged(LeafItems(data, n), |LeafItems(data, n)|)
  {
    if n > 0 {
      LeafAges(data, n - 1);
    }
  }

  lemma InitialAges(data: seq<byte>)
    ensures Aged(Initial(data), |Initial(data)|)
  {
    hide LeafItems, Aged;
    LeafAges(data, 256);
    var nodes := LeafItems(data, 256);
    if |nodes| == 1 {
      assert nodes == [nodes[0]];
      AgeOfOne(nodes[0], 1);
      AgesOfTwo(nodes[0], Initial(data)[1]);
      assert Initial(data) == [nodes[0], Initial(data)[1]];
    } else if |nodes| == 0 {
      AgesOfTwo(Item(Leaf(0), 1, 0), Item(Leaf(1), 0, 1));
    } else {
      assert Initial(data) == nodes;
    }
  }

  lemma AgeOfOne(x: Item, order: nat)
    requires Aged([x], order)
    ensures x.order < order
  {
    assert x in [x];
  }

  lemma AgesOfTwo(x: Item, y: Item)
    requires x.order == 0 && y.order == 1
    ensures Aged([x, y], 2)
  {
  }

  lemma OnlySorting(s: seq<Item>, order: nat)
    requires Aged(s, order)
    ensures forall t :: multiset(t) == multiset(s) && InOrder(t) ==> t == Sorted(s)
  {
    hide Sorted, InOrder;
    SortedBag(s);
    SortedInOrder(s);
    SameMembers(Sorted(s), s);
    forall t | multiset(t) == multiset(s) && InOrder(t)
      ensures t == Sorted(s)
    {
      OneSorting(Sorted(s), t, order);
    }
  }

  /** What the library's sort promises. */
  method SortItems(s: seq<Item>) returns (t: seq<Item>)
    ensures multiset(t) == multiset(s) && InOrder(t)
  {
    t := Sorted(s);
    SortedBag(s);
    SortedInOrder(s);
  }

  lemma {:induction false} LeafItemsSize(data: seq<byte>, n: nat)
    requires n <= 256
    ensures |LeafItems(data, n)| <= n
    ensures forall x :: x in LeafItems(data, n) ==> x.tree.Node? && IsLeaf(x.tree) && x.tree.symbol < n
  {
    if n > 0 {
      LeafItemsSize(data, n - 1);
    }
  }

  lemma InitialSize(data: seq<byte>)
    ensures 2 <= |Initial(data)| <= 256
  {
    LeafItemsSize(data, 256);
  }

  /** The merge loop. */
  method MergeNodes(items: seq<Item>, age: nat) returns (root: Tree)
    requires |items| >= 1 && Aged(items, age)
    ensures root == MergeAll(items, 256, age)
  {
    hide Aged, InOrder, Sorted;
    var nodes, order := items, age;
    var synthetic: word := 256;
    while |nodes| > 1
      invariant |nodes| >= 1 && Aged(nodes, order)
      invariant MergeAll(items, 256, age) == MergeAll(nodes, synthetic, order)
    {
      ghost var next := MergeStep(nodes, synthetic, order);
      MergeAges(nodes, synthetic, order);
      OnlySorting(nodes, order);
      nodes := SortItems(nodes);
      var a, b := nodes[0], nodes[1];
      nodes := nodes[2..] + [Item(Node(synthetic, a.tree, b.tree), a.weight + b.weight, order)];
      assert nodes == next;
      synthetic := ToWord(synthetic + 1);
      order := order + 1;
    }
    root := nodes[0].tree;
  }

  /** Counts the bytes, lists the leaves, and merges until one node is left. */
  method BuildHuffman(data: seq<byte>) returns (root: Tree)
    ensures root == BuildTree(data)
  {
    hide Aged, MergeAll;
    var counts := new nat[256](i => 0);
    for k := 0 to |data|
      invariant forall i :: 0 <= i < 256 ==> counts[i] == multiset(data[..k])[i]
    {
      assert data[..k + 1] == data[..k] + [data[k]];
      counts[data[k]] := counts[data[k]] + 1;
    }
    assert data[..|data|] == data;
    var nodes: seq<Item> := [];
    var order := 0;
    for i := 0 to 256
      invariant nodes == LeafItems(data, i) && order == |nodes|
      invariant forall i :: 0 <= i < 256 ==> counts[i] == multiset(data)[i]
    {
      if counts[i] > 0 {
        nodes := nodes + [Item(Leaf(i), counts[i], order)];
        order := order + 1;
      }
    }
    LeafItemsSize(data, 256);
    if |nodes| == 1 {
      assert nodes[0] in nodes;
      var dummy: word := 0;
      if nodes[0].tree.symbol == 0 {
        dummy := 1;
      }
      nodes := nodes + [Item(Leaf(dummy), 0, order)];
      order := order + 1;
    }
    if |nodes| == 0 {
      nodes := [Item(Leaf(0), 1, 0), Item(Leaf(1), 0, 1)];
      order := 2;
    }
    assert nodes == Initial(data) && order == |nodes|;
    InitialAges(data);
    root := MergeNodes(nodes, order);
  }

  // ----- what a work list adds up to

  datatype Totals = Totals(symbols: multiset<word>, leaves: multiset<word>, weights: multiset<nat>, path: nat)

  const NOTHING := Totals(multiset{}, multiset{}, multiset{}, 0)

  function Plus(a: Totals, b: Totals): Totals
  {
    Totals(a.symbols + b.symbols, a.leaves + b.leaves, a.weights + b.weights, a.path + b.path)
  }

  function Of(x: Item, bag: Bag): Totals
  {
    Totals(multiset(Pre(x.tree)), multiset(Leaves(x.tree)), multiset{x.weight}, PathCost(x.tree, bag))
  }

  function Total(s: seq<Item>, bag: Bag): Totals
  {
    if s == [] then NOTHING else Plus(Of(s[0], bag), Total(s[1..], bag))
  }

  lemma PlusLaws(a: Totals, b: Totals, c: Totals)
    ensures Plus(a, Plus(b, c)) == Plus(Plus(a, b), c)
    ensures Plus(a, b) == Plus(b, a)
    ensures Plus(NOTHING, a) == a
  {
  }

  lemma {:induction false} TotalConcat(a: seq<Item>, b: seq<Item>, bag: Bag)
    ensures Total(a + b, bag) == Plus(Total(a, bag), Total(b, bag))
  {
    hide Of, Plus;
    if a == [] {
      assert a + b == b;
      PlusLaws(Total(b, bag), NOTHING, NOTHING);
    } else {
      assert (a + b)[1..] == a[1..] + b;
      TotalConcat(a[1..], b, bag);
      PlusLaws(Of(a[0], bag), Total(a[1..], bag), Total(b, bag));
    }
  }

  lemma {:induction false} TotalInsert(x: Item, s: seq<Item>, bag: Bag)
    ensures Total(Insert(x, s), bag) == Plus(Of(x, bag), Total(s, bag))
  {
    hide Of, Plus, Before;
    if s == [] || !Before(s[0], x) {
      assert ([x] + s)[1..] == s;
    } else {
      TotalInsert(x, s[1..], bag);
      assert Insert(x, s)[1..] == Insert(x, s[1..]);
      PlusLaws(Of(x, bag), Of(s[0], bag), Total(s[1..], bag));
      PlusLaws(Of(s[0], bag), Of(x, bag), Total(s[1..], bag));
    }
  }

  lemma {:induction false} TotalSorted(s: seq<Item>, bag: Bag)
    ensures Total(Sorted(s), bag) == Total(s, bag)
  {
    hide Of, Plus;
    if s != [] {
      TotalSorted(s[1..], bag);
      TotalInsert(s[0], Sorted(s[1..]), bag);
    }
  }

  /** Inner nodes carry symbols above the bytes. */
  predicate InnerHigh(t: Tree)
  {
    t.Nil? || IsLeaf(t) || (t.symbol >= 256 && InnerHigh(t.left) && InnerHigh(t.right))
  }

  predicate Good(x: Item, bag: Bag)
  {
    Full(x.tree) && InnerHigh(x.tree) && ByteLeaves(x.tree) && x.weight == Weight(x.tree, bag)
  }

  /** A forest in mid-construction, with `synthetic` the next inner symbol. */
  ghost predicate Forest(items: seq<Item>, synthetic: word, bag: Bag)
  {
    && (forall x :: x in items ==> Good(x, bag))
    && (forall s :: Total(items, bag).symbols[s] <= 1)
    && (forall s :: s in Total(items, bag).symbols ==> s < synthetic)
    && 256 <= synthetic
    && synthetic + |items| <= 512
  }

  /** What one merge does to the totals, a and b being the two lightest nodes. */
  lemma MergeTotals(items: seq<Item>, synthetic: word, order: nat, bag: Bag)
    requires |items| >= 2
    ensures var s := Sorted(items); var rest := Total(s[2..], bag);
            && Total(items, bag) == Plus(Of(s[0], bag), Plus(Of(s[1], bag), rest))
            && Total(MergeStep(items, synthetic, order), bag)
               == Plus(rest, Of(MergeStep(items, synthetic, order)[|items| - 2], bag))
  {
    hide Of, Plus;
    TotalSorted(items, bag);
    var s := Sorted(items);
    assert s[1..][1..] == s[2..];
    var top := MergeStep(items, synthetic, order)[|items| - 2];
    TotalConcat(s[2..], [top], bag);
    assert [top][1..] == [];
    PlusLaws(NOTHING, Of(top, bag), NOTHING);
    PlusLaws(Of(top, bag), NOTHING, NOTHING);
  }

  lemma MergedItem(a: Item, b: Item, synthetic: word, order: nat, bag: Bag)
    requires Good(a, bag) && Good(b, bag) && synthetic >= 256
    ensures var top := Item(Node(synthetic, a.tree, b.tree), a.weight + b.weight, order);
            && Good(top, bag)
            && Of(top, bag).symbols == multiset{synthetic} + Of(a, bag).symbols + Of(b, bag).symbols
            && Of(top, bag).leaves == Of(a, bag).leaves + Of(b, bag).leaves
            && Of(top, bag).weights == multiset{a.weight + b.weight}
            && Of(top, bag).path == Of(a, bag).path + Of(b, bag).path + a.weight + b.weight
  {
    hide ByteLeaves;
    var t := Node(synthetic, a.tree, b.tree);
    JoinTraversals(t);
    JoinByteLeaves(t);
  }

  lemma JoinTraversals(t: Tree)
    requires t.Node? && t.left.Node?
    ensures multiset(Pre(t)) == multiset{t.symbol} + multiset(Pre(t.left)) + multiset(Pre(t.right))
    ensures multiset(Leaves(t)) == multiset(Leaves(t.left)) + multiset(Leaves(t.right))
  {
    assert Pre(t) == [t.symbol] + Pre(t.left) + Pre(t.right);
    assert Leaves(t) == Leaves(t.left) + Leaves(t.right);
  }

  lemma JoinByteLeaves(t: Tree)
    requires t.Node? && t.left.Node? && ByteLeaves(t.left) && ByteLeaves(t.right)
    ensures ByteLeaves(t)
  {
    forall s | s in Leaves(t)
      ensures s < 256
    {
      assert s in Leaves(t.left) || s in Leaves(t.right);
    }
  }

  lemma MergeKeepsForest(items: seq<Item>, synthetic: word, order: nat, bag: Bag)
    requires |items| >= 2 && Forest(items, synthetic, bag)
    ensures Forest(MergeStep(items, synthetic, order), ToWord(synthetic + 1), bag)
    ensures Total(MergeStep(items, synthetic, order), bag).leaves == Total(items, bag).leaves
    ensures Total(MergeStep(items, synthetic, order), bag).path
            == Total(items, bag).path + Sorted(items)[0].weight + Sorted(items)[1].weight
  {
    hide Of, Good, Sorted, Total;
    var s := Sorted(items);
    var next := MergeStep(items, synthetic, order);
    MergeTotals(items, synthetic, order, bag);
    SortedBag(items);
    SameMembers(items, s);
    MergedItem(s[0], s[1], synthetic, order, bag);
    assert Total(next, bag).symbols == Total(items, bag).symbols + multiset{synthetic};
    assert synthetic !in Total(items, bag).symbols;
  }

  /** The weight of every merge added up. */
  function MergeCost(items: seq<Item>, synthetic: word, order: nat): nat
    decreases |items|
  {
    if |items| <= 1 then 0
    else
      Sorted(items)[0].weight + Sorted(items)[1].weight
      + MergeCost(MergeStep(items, synthetic, order), ToWord(synthetic + 1), order + 1)
  }

  lemma {:induction false} MergeAllShape(items: seq<Item>, synthetic: word, order: nat, bag: Bag)
    requires |items| >= 1 && Forest(items, synthetic, bag)
    ensures var t := MergeAll(items, synthetic, order);
            && Sendable(t) && InnerHigh(t)
            && multiset(Leaves(t)) == Total(items, bag).leaves
            && PathCost(t, bag) == Total(items, bag).path + MergeCost(items, synthetic, order)
            && (forall s :: s in Pre(t) ==> s < synthetic + |items| - 1)
    decreases |items|
  {
    hide Forest, MergeStep, Sendable, InnerHigh, Sorted, Total, PathCost, Pre, Leaves;
    if |items| == 1 {
      LastTree(items, synthetic, bag);
    } else {
      assert synthetic + |items| <= 512 by { ForestBound(items, synthetic, bag); }
      MergeKeepsForest(items, synthetic, order, bag);
      MergeAllShape(MergeStep(items, synthetic, order), ToWord(synthetic + 1), order + 1, bag);
    }
  }

  lemma LastTree(items: seq<Item>, synthetic: word, bag: Bag)
    requires |items| == 1 && Forest(items, synthetic, bag)
    ensures var t := items[0].tree;
            && Sendable(t) && InnerHigh(t)
            && multiset(Leaves(t)) == Total(items, bag).leaves
            && PathCost(t, bag) == Total(items, bag).path
            && (forall s :: s in Pre(t) ==> s < synthetic)
  {
    hide Total, NoDup, Pre, Leaves, InnerHigh, Full, ByteLeaves;
    OneTree(items, bag);
    var t := items[0].tree;
    NoDupCount(Pre(t));
    assert items[0] in items;
    forall s | s in Pre(t)
      ensures s < synthetic
    {
      assert s in multiset(Pre(t));
    }
  }

  lemma ForestBound(items: seq<Item>, synthetic: word, bag: Bag)
    requires Forest(items, synthetic, bag)
    ensures synthetic + |items| <= 512
  {
  }

  lemma OneTree(items: seq<Item>, bag: Bag)
    requires |items| == 1
    ensures Total(items, bag) == Of(items[0], bag)
  {
    assert items[1..] == [];
    PlusLaws(NOTHING, Of(items[0], bag), NOTHING);
    PlusLaws(Of(items[0], bag), NOTHING, NOTHING);
  }
}
