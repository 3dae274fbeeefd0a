/** Which of two merged nodes goes left, how ties are broken, and what small pages are given. */
module HuffmanOrder {
  import opened Prelude
  import opened Bytes
  import opened PrefixTree
  import opened TreeWire
  import opened Optimality
  import opened HuffmanBuild
  import opened HuffmanTheorems

  /** Every inner node is younger than its children, and its left child weighs less than the right
      one, or the same and is the older: symbols grow with age, all bytes before all inner nodes. */
  predicate Ordered(t: Tree, bag: Bag)
  {
    t.Nil? || IsLeaf(t) ||
    (&& t.left.Node? && t.right.Node? && t.left.symbol < t.symbol && t.right.symbol < t.symbol
     && (Weight(t.left, bag) < Weight(t.right, bag)
         || (Weight(t.left, bag) == Weight(t.right, bag) && t.left.symbol < t.right.symbol))
     && Ordered(t.left, bag) && Ordered(t.right, bag))
  }

  /** A work list of ordered trees in which, among equal weights, age and symbol agree. */
  ghost predicate Lined(items: seq<Item>, synthetic: int, bag: Bag)
  {
    && (forall x :: x in items ==> x.tree.Node? && Ordered(x.tree, bag) && x.tree.symbol < synthetic)
    && (forall x, y :: x in items && y in items && x.weight == y.weight && x.order < y.order ==>
          x.tree.Node? && y.tree.Node? && x.tree.symbol < y.tree.symbol)
  }

  lemma FirstTwo(items: seq<Item>, order: nat)
    requires |items| >= 2 && Aged(items, order)
    ensures var s := Sorted(items);
            && s[0] in items && s[1] in items && (forall x :: x in s[2..] ==> x in items)
            && (s[0].weight < s[1].weight || (s[0].weight == s[1].weight && s[0].order < s[1].order))
  {
    hide Sorted;
    var s := Sorted(items);
    SortedBag(items);
    SortedInOrder(items);
    SameMembers(items, s);
    assert !Before(s[1], s[0]);
    TwoDiffer(s);
  }

  lemma TwoDiffer(s: seq<Item>)
    requires |s| >= 2 && forall x :: multiset(s)[x] <= 1
    ensures s[0] != s[1]
  {
    assert s == [s[0], s[1]] + s[2..];
    assert multiset(s)[s[0]] == multiset([s[0], s[1]])[s[0]] + multiset(s[2..])[s[0]];
    assert multiset([s[0], s[1]])[s[0]] == if s[0] == s[1] then 2 else 1;
  }

  lemma MergeLined(items: seq<Item>, synthetic: word, order: nat, bag: Bag)
    requires |items| >= 2 && Forest(items, synthetic, bag) && Aged(items, order) && Lined(items, synthetic, bag)
    ensures Lined(MergeStep(items, synthetic, order), synthetic + 1, bag)
  {
    hide Sorted, Weight, Total;
    var s := Sorted(items);
    FirstTwo(items, order);
    var top := Item(Node(synthetic, s[0].tree, s[1].tree), s[0].weight + s[1].weight, order);
    assert Good(s[0], bag) && Good(s[1], bag);
    assert MergeStep(items, synthetic, order) == s[2..] + [top];
    assert Ordered(top.tree, bag);
  }

  lemma {:induction false} MergeAllOrdered(items: seq<Item>, synthetic: word, order: nat, bag: Bag)
    requires |items| >= 1 && Forest(items, synthetic, bag) && Aged(items, order) && Lined(items, synthetic, bag)
    ensures Ordered(MergeAll(items, synthetic, order), bag)
    decreases |items|
  {
    hide Forest, Aged, MergeStep, Ordered, Lined, Total, Sorted;
    if |items| == 1 {
      LastOrdered(items, synthetic, bag);
    } else {
      ForestBound(items, synthetic, bag);
      MergeKeepsForest(items, synthetic, order, bag);
      MergeAges(items, synthetic, order);
      MergeLined(items, synthetic, order, bag);
      MergeAllOrdered(MergeStep(items, synthetic, order), ToWord(synthetic + 1), order + 1, bag);
    }
  }

  lemma LastOrdered(items: seq<Item>, synthetic: int, bag: Bag)
    requires |items| == 1 && Lined(items, synthetic, bag)
    ensures Ordered(items[0].tree, bag)
  {
    assert items[0] in items;
  }

  lemma {:induction false} LeavesLined(data: seq<byte>, n: nat, bag: Bag)
    requires n <= 256
    ensures Lined(LeafItems(data, n), n, bag)
  {
    if n > 0 {
      LeavesLined(data, n - 1, bag);
      LeafAges(data, n - 1);
    }
  }

  lemma InitialLined(data: seq<byte>, bag: Bag)
    ensures Lined(Initial(data), 256, bag)
  {
    hide LeafItems, Aged, Ordered, Lined;
    var nodes := LeafItems(data, 256);
    LeavesLined(data, 256, bag);
    LeafAges(data, 256);
    if |nodes| == 1 {
      LeafWeight(data);
      LeafItemsSize(data, 256);
      assert nodes[0] in nodes && nodes == [nodes[0]];
      AgeOfOne(nodes[0], 1);
      PairLined(nodes[0], Initial(data)[1], bag);
      assert Initial(data) == [nodes[0], Initial(data)[1]];
    } else if |nodes| == 0 {
      PairLined(Item(Leaf(0), 1, 0), Item(Leaf(1), 0, 1), bag);
    } else {
      assert Initial(data) == nodes;
    }
  }

  lemma PairLined(x: Item, y: Item, bag: Bag)
    requires x.weight != y.weight && x.tree.Node? && y.tree.Node? && IsLeaf(x.tree) && IsLeaf(y.tree)
    requires x.tree.symbol < 256 && y.tree.symbol < 256
    ensures Lined([x, y], 256, bag)
  {
  }

  lemma LeafWeight(data: seq<byte>)
    requires |LeafItems(data, 256)| == 1
    ensures LeafItems(data, 256)[0].weight > 0
  {
    LeafItemsPositive(data, 256);
    assert LeafItems(data, 256)[0] in LeafItems(data, 256);
  }

  lemma {:induction false} LeafItemsPositive(data: seq<byte>, n: nat)
    requires n <= 256
    ensures forall x :: x in LeafItems(data, n) ==> x.weight > 0
  {
    if n > 0 {
      LeafItemsPositive(data, n - 1);
    }
  }

  /** In every built tree the lighter of two siblings is on the left, and of two equal ones the older. */
  lemma BuiltIsOrdered(data: seq<byte>)
    ensures Ordered(BuildTree(data), PageBag(data))
  {
    hide Forest, Aged, Lined, Initial, MergeAll, Ordered;
    InitialSize(data);
    InitialForest(data);
    InitialAges(data);
    InitialLined(data, PageBag(data));
    MergeAllOrdered(Initial(data), 256, |Initial(data)|, PageBag(data));
  }

  // ----- which leaves

  lemma {:induction false} NoLeafItems(data: seq<byte>, n: nat)
    requires n <= 256 && forall b :: b in data ==> b >= n
    ensures LeafItems(data, n) == []
  {
    if n > 0 {
      assert n - 1 !in data && (n - 1 in data <==> n - 1 in multiset(data));
      NoLeafItems(data, n - 1);
    }
  }

  lemma {:induction false} OneLeafItem(data: seq<byte>, b: byte, n: nat)
    requires b < n <= 256 && data != [] && forall x :: x in data ==> x == b
    ensures LeafItems(data, n) == [Item(Leaf(b), |data|, 0)]
  {
    assert n - 1 in data <==> n - 1 in multiset(data);
    if n - 1 == b {
      NoLeafItems(data, b);
      AllTheSame(data, b);
    } else {
      OneLeafItem(data, b, n - 1);
    }
  }

  lemma {:induction false} AllTheSame(data: seq<byte>, b: byte)
    requires forall x :: x in data ==> x == b
    ensures multiset(data)[b] == |data|
  {
    if data != [] {
      assert data == [data[0]] + data[1..] && data[0] in data && forall x :: x in data[1..] ==> x in data;
      AllTheSame(data[1..], b);
    }
  }

  lemma MergeTwo(a: Item, b: Item)
    requires b.weight < a.weight
    ensures MergeAll([a, b], 256, 2) == Node(256, b.tree, a.tree)
  {
    assert [a, b][1..] == [b] && [b][1..] == [];
    assert Sorted([]) == [] && Insert(b, []) == [b] && Insert(a, []) == [a];
    assert Sorted([b]) == [b];
    assert Insert(a, [b]) == [b] + Insert(a, [b][1..]);
    assert Sorted([a, b]) == [b, a];
    var next := MergeStep([a, b], 256, 2);
    assert next == [Item(Node(256, b.tree, a.tree), a.weight + b.weight, 2)];
  }

  /** A page of one byte value gets a second, weightless leaf on the left; an empty page gets both. */
  lemma SmallPages(data: seq<byte>, b: byte)
    ensures data != [] && (forall x :: x in data ==> x == b) ==>
              BuildTree(data) == Node(256, Leaf(if b == 0 then 1 else 0), Leaf(b))
    ensures data == [] ==> BuildTree(data) == Node(256, Leaf(1), Leaf(0))
  {
    hide MergeAll;
    if data == [] {
      NoLeafItems(data, 256);
      MergeTwo(Item(Leaf(0), 1, 0), Item(Leaf(1), 0, 1));
    } else if forall x :: x in data ==> x == b {
      OneLeafItem(data, b, 256);
      var dummy: word := if b == 0 then 1 else 0;
      MergeTwo(Item(Leaf(b), |data|, 0), Item(Leaf(dummy), 0, 1));
      assert Initial(data) == [Item(Leaf(b), |data|, 0), Item(Leaf(dummy), 0, 1)];
    }
  }

  /** On any other page the leaves are exactly the bytes that occur. */
  lemma LeavesAreBytes(data: seq<byte>, a: byte, b: byte)
    requires a in data && b in data && a != b
    ensures forall s :: s in Leaves(BuildTree(data)) <==> s in data
  {
    hide BuildTree, LeafItems, InnerHigh, Pre, Leaves;
    BuiltShape(data);
    LeafItemsSymbols(data, 256);
    var nodes := LeafItems(data, 256);
    TwoSymbols(nodes, a, b);
    assert Initial(data) == nodes;
    forall s
      ensures s in Leaves(BuildTree(data)) <==> s in data
    {
      assert s in Leaves(BuildTree(data)) <==> s in multiset(Leaves(BuildTree(data)));
      assert s in SymbolsOf(nodes) <==> s in multiset(SymbolsOf(nodes));
    }
  }

  lemma {:induction false} SymbolsCount(nodes: seq<Item>)
    ensures |SymbolsOf(nodes)| == |nodes|
  {
    if nodes != [] {
      SymbolsCount(nodes[1..]);
    }
  }

  lemma TwoSymbols(nodes: seq<Item>, a: byte, b: byte)
    requires a in SymbolsOf(nodes) && b in SymbolsOf(nodes) && a != b
    ensures |nodes| >= 2
  {
    var s := SymbolsOf(nodes);
    SymbolsCount(nodes);
    var i :| 0 <= i < |s| && s[i] == a;
    var j :| 0 <= j < |s| && s[j] == b;
  }
}
