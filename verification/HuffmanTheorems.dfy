/** Shape, limits and optimality of the tree that BuildHuffman returns. */
module HuffmanTheorems {
  import opened Prelude
  import opened Bytes
  import opened PrefixTree
  import opened TreeWire
  import opened Optimality
  import opened HuffmanBuild

  /** The leaf weights of the page; an empty page is given one occurrence of byte 0. */
  function PageBag(data: seq<byte>): Bag
  {
    if data == [] then multiset{0} else multiset(data)
  }

  // ----- the starting forest

  ghost predicate LeafItem(x: Item, bag: Bag)
  {
    x.tree.Node? && IsLeaf(x.tree) && x.tree.symbol < 256 && x.weight == bag[x.tree.symbol]
  }

  ghost predicate LeafList(items: seq<Item>, bag: Bag)
  {
    forall x :: x in items ==> LeafItem(x, bag)
  }

  function SymbolOf(x: Item): word
  {
    if x.tree.Node? then x.tree.symbol else 0
  }

  function SymbolsOf(items: seq<Item>): seq<word>
  {
    if items == [] then [] else [SymbolOf(items[0])] + SymbolsOf(items[1..])
  }

  lemma LeafTotals(x: Item, bag: Bag)
    requires LeafItem(x, bag)
    ensures Of(x, bag) == Totals(multiset{SymbolOf(x)}, multiset{SymbolOf(x)}, multiset{bag[SymbolOf(x)]}, 0)
    ensures Good(x, bag)
  {
    assert Pre(x.tree) == [x.tree.symbol];
  }

  lemma {:induction false} LeafListTotals(items: seq<Item>, bag: Bag)
    requires LeafList(items, bag)
    ensures Total(items, bag) == Totals(multiset(SymbolsOf(items)), multiset(SymbolsOf(items)),
                                        WeightsOf(SymbolsOf(items), bag), 0)
    ensures |SymbolsOf(items)| == |items|
    ensures forall x :: x in items ==> Good(x, bag)
  {
    hide Of, Good;
    if items != [] {
      assert items[0] in items;
      LeafTotals(items[0], bag);
      LeafListTotals(items[1..], bag);
      forall x | x in items
        ensures Good(x, bag)
      {
        if x != items[0] {
          assert x in items[1..];
        }
      }
    }
  }

  lemma {:induction false} SymbolsConcat(a: seq<Item>, b: seq<Item>)
    ensures SymbolsOf(a + b) == SymbolsOf(a) + SymbolsOf(b)
  {
    if a == [] {
      assert a + b == b;
    } else {
      assert (a + b)[1..] == a[1..] + b;
      SymbolsConcat(a[1..], b);
    }
  }

  lemma {:induction false} LeafItemsSymbols(data: seq<byte>, n: nat)
    requires n <= 256
    ensures LeafList(LeafItems(data, n), multiset(data))
    ensures NoDup(SymbolsOf(LeafItems(data, n)))
    ensures forall s :: s in SymbolsOf(LeafItems(data, n)) <==> s < n && s in data
  {
    if n > 0 {
      LeafItemsSymbols(data, n - 1);
      var before := LeafItems(data, n - 1);
      var x := Item(Leaf(n - 1), multiset(data)[n - 1], |before|);
      assert n - 1 in data <==> multiset(data)[n - 1] > 0;
      SymbolsConcat(before, [x]);
      assert SymbolsOf([x]) == [n - 1];
    }
  }

  /** The starting list has one leaf per symbol, every byte of the page among them. */
  lemma InitialLeaves(data: seq<byte>)
    ensures LeafList(Initial(data), PageBag(data))
    ensures NoDup(SymbolsOf(Initial(data)))
    ensures forall b :: b in data ==> b in SymbolsOf(Initial(data))
  {
    hide NoDup, LeafItem;
    var nodes := LeafItems(data, 256);
    LeafItemsSymbols(data, 256);
    assert nodes != [] ==> SymbolOf(nodes[0]) in SymbolsOf(nodes);
    assert data != [] ==> data[0] in SymbolsOf(nodes);
    if |nodes| == 1 {
      TopUp(data, nodes);
    } else if |nodes| == 0 {
      TwoLeaves();
    }
  }

  lemma TwoLeaves()
    ensures var two := [Item(Leaf(0), 1, 0), Item(Leaf(1), 0, 1)];
            LeafList(two, multiset{0}) && NoDup(SymbolsOf(two))
  {
    var two := [Item(Leaf(0), 1, 0), Item(Leaf(1), 0, 1)];
    assert two[1..] == [two[1]] && two[1..][1..] == [];
    assert SymbolsOf(two) == [0, 1];
  }

  lemma TopUp(data: seq<byte>, nodes: seq<Item>)
    requires nodes == LeafItems(data, 256) && |nodes| == 1
    requires LeafList(nodes, multiset(data))
    requires forall s :: s in SymbolsOf(nodes) <==> s < 256 && s in data
    ensures data != []
    ensures LeafList(Initial(data), multiset(data))
    ensures NoDup(SymbolsOf(Initial(data)))
    ensures forall b :: b in data ==> b in SymbolsOf(Initial(data))
  {
    assert nodes[0] in nodes;
    var s := nodes[0].tree.symbol;
    var dummy: word := if s == 0 then 1 else 0;
    assert SymbolsOf(nodes) == [s] by { assert nodes[1..] == []; }
    assert s in SymbolsOf(nodes);
    assert dummy !in SymbolsOf(nodes);
    var extra := Item(Leaf(dummy), 0, 1);
    SymbolsConcat(nodes, [extra]);
    assert SymbolsOf([extra]) == [dummy];
    assert Initial(data) == nodes + [extra];
  }

  lemma InitialForest(data: seq<byte>)
    ensures Forest(Initial(data), 256, PageBag(data))
  {
    hide Total, Good, NoDup;
    var items, bag := Initial(data), PageBag(data);
    InitialLeaves(data);
    LeafListTotals(items, bag);
    InitialSize(data);
    NoDupCount(SymbolsOf(items));
    forall s | s in Total(items, bag).symbols
      ensures s < 256
    {
      SymbolIsByte(items, bag, s);
    }
  }

  lemma {:induction false} SymbolIsByte(items: seq<Item>, bag: Bag, s: word)
    requires LeafList(items, bag) && s in SymbolsOf(items)
    ensures s < 256
  {
    assert items[0] in items;
    if s != SymbolOf(items[0]) {
      SymbolIsByte(items[1..], bag, s);
    }
  }

  // ----- shape and limits

  lemma {:induction false} FullSizes(t: Tree)
    requires Full(t)
    ensures |Leaves(t)| >= 1
    ensures Size(t) == 2 * |Leaves(t)| - 1
    ensures Height(t) <= |Leaves(t)| - 1
    ensures IsLeaf(t) <==> |Leaves(t)| == 1
  {
    if !IsLeaf(t) {
      FullSizes(t.left);
      FullSizes(t.right);
    }
  }

  lemma {:induction false} PathWithinHeight(t: Tree, s: word)
    requires Full(t) && s in Leaves(t)
    ensures |Path(t, s)| <= Height(t)
  {
    if !IsLeaf(t) {
      if s in Leaves(t.left) {
        PathWithinHeight(t.left, s);
      } else {
        PathWithinHeight(t.right, s);
      }
    }
  }

  /** For every page: a full tree of at least two and at most 256 distinct byte leaves that include
      all bytes of the page, inner symbols 256 to 510, at most 511 nodes, and depth at most 255. */
  lemma BuiltShape(data: seq<byte>)
    ensures var t := BuildTree(data);
            && Sendable(t) && InnerHigh(t) && !IsLeaf(t)
            && 2 <= |Leaves(t)| <= 256 && Size(t) <= 511 && Height(t) <= 255
            && (forall b :: b in data ==> b in Leaves(t))
            && (forall s :: s in Pre(t) ==> s <= 254 + |Leaves(t)| <= 510)
            && PathCost(t, PageBag(data)) == MergeCost(Initial(data), 256, |Initial(data)|)
            && multiset(Leaves(t)) == multiset(SymbolsOf(Initial(data)))
  {
    hide Total, Forest, Pre, Leaves, InnerHigh, NoDup, ByteLeaves, MergeAll, Initial;
    var items, bag, t := Initial(data), PageBag(data), BuildTree(data);
    InitialSize(data);
    InitialForest(data);
    InitialLeaves(data);
    LeafListTotals(items, bag);
    MergeAllShape(items, 256, |items|, bag);
    assert |Leaves(t)| == |multiset(Leaves(t))| == |multiset(SymbolsOf(items))| == |items|;
    FullSizes(t);
    forall b | b in data
      ensures b in Leaves(t)
    {
      assert b in multiset(SymbolsOf(items));
      assert b in multiset(Leaves(t));
    }
  }

  // ----- optimality

  lemma {:induction false} WeightHolder(items: seq<Item>, bag: Bag, w: nat)
    requires w in Total(items, bag).weights
    ensures exists k :: 0 <= k < |items| && items[k].weight == w
  {
    if items[0].weight != w {
      WeightHolder(items[1..], bag, w);
      var k :| 0 <= k < |items[1..]| && items[1..][k].weight == w;
      assert items[k + 1].weight == w;
    }
  }

  lemma MergedWeight(items: seq<Item>, synthetic: word, order: nat)
    requires |items| >= 2
    ensures MergeStep(items, synthetic, order)[|items| - 2].weight == Sorted(items)[0].weight + Sorted(items)[1].weight
  {
    hide Sorted;
  }

  /** Weights before and after a merge. */
  lemma LightestTwo(items: seq<Item>, synthetic: word, order: nat, bag: Bag) returns (rest: multiset<nat>)
    requires |items| >= 2
    ensures var a, b := Sorted(items)[0].weight, Sorted(items)[1].weight;
            && Total(items, bag).weights == rest + multiset{a} + multiset{b}
            && Total(MergeStep(items, synthetic, order), bag).weights == rest + multiset{a + b}
            && a <= b && (forall w :: w in rest ==> b <= w)
  {
    hide Total, Sorted, InOrder, MergeStep;
    var s := Sorted(items);
    MergedWeight(items, synthetic, order);
    rest := Total(s[2..], bag).weights;
    MergeTotals(items, synthetic, order, bag);
    SortedInOrder(items);
    LightestFirst(s, bag);
  }

  lemma LightestFirst(s: seq<Item>, bag: Bag)
    requires |s| >= 2 && InOrder(s)
    ensures s[0].weight <= s[1].weight && forall w :: w in Total(s[2..], bag).weights ==> s[1].weight <= w
  {
    hide Total;
    assert !Before(s[1], s[0]);
    forall w | w in Total(s[2..], bag).weights
      ensures s[1].weight <= w
    {
      WeightHolder(s[2..], bag, w);
      var k :| 0 <= k < |s[2..]| && s[2..][k].weight == w;
      assert s[2..][k] == s[k + 2] && !Before(s[k + 2], s[1]);
    }
  }

  /** Greedy merging costs no more than any way of placing the same weights in a full tree. */
  lemma {:induction false} GreedyIsLeast(items: seq<Item>, synthetic: word, order: nat, bag: Bag, p: seq<Slot>, d: nat)
    requires |items| >= 1
    requires Weights(p) == Total(items, bag).weights && Within(p, d) && Kraft(p, d) == Pow2(d)
    ensures MergeCost(items, synthetic, order) <= Cost(p)
    decreases |items|, d
  {
    hide Total, Sorted, Weights, Within, Kraft, Cost, Pow2, MergeStep;
    if |items| > 1 {
      WeightsSize(p);
      TotalSize(items, bag);
      DeepEnough(p, d);
      if Within(p, d - 1) {
        Halve(p, d);
        DoublePow2(d);
        GreedyIsLeast(items, synthetic, order, bag, p, d - 1);
      } else {
        var rest := LightestTwo(items, synthetic, order, bag);
        var q := Fold(p, Sorted(items)[0].weight, Sorted(items)[1].weight, rest, d);
        GreedyIsLeast(MergeStep(items, synthetic, order), ToWord(synthetic + 1), order + 1, bag, q, d);
      }
    }
  }

  lemma {:induction false} TotalSize(items: seq<Item>, bag: Bag)
    ensures |Total(items, bag).weights| == |items|
  {
    if items != [] {
      TotalSize(items[1..], bag);
    }
  }

  lemma DeepEnough(p: seq<Slot>, d: nat)
    requires Within(p, d) && |p| >= 2 && Kraft(p, d) == Pow2(d)
    ensures d > 0
  {
    if d == 0 {
      FlatKraft(p);
    }
  }

  /** Huffman optimality: no full tree over the same leaves has a smaller weighted path length. */
  lemma BuiltIsOptimal(data: seq<byte>, u: Tree)
    requires Full(u) && multiset(Leaves(u)) == multiset(Leaves(BuildTree(data)))
    ensures PathCost(BuildTree(data), PageBag(data)) <= PathCost(u, PageBag(data))
  {
    hide Total, Weights, WeightsOf, Within, Kraft, Cost, Pow2, MergeStep, MergeCost, Leaves, Slots, PathCost, LeafList, Initial,
      BuildTree, NoDup, InnerHigh;
    var items, bag := Initial(data), PageBag(data);
    BuiltShape(data);
    InitialSize(data);
    InitialLeaves(data);
    LeafListTotals(items, bag);
    var d := Height(u);
    SlotsKraft(u, bag, 0, d);
    SlotsCost(u, bag, 0);
    SlotsWeights(u, bag, 0);
    WeightsOfPermutation(Leaves(u), SymbolsOf(items), bag);
    GreedyIsLeast(items, 256, |items|, bag, Slots(u, bag, 0), d);
  }

  // ----- the coded page is never larger than the raw page

  /** A tree over s as flat as possible. */
  function Balanced(s: seq<word>): Tree
    requires |s| >= 1
    decreases |s|
  {
    if |s| == 1 then Leaf(s[0]) else Node(0, Balanced(s[..|s| / 2]), Balanced(s[|s| / 2..]))
  }

  lemma {:induction false} BalancedShape(s: seq<word>, k: nat)
    requires 1 <= |s| <= Pow2(k)
    ensures Full(Balanced(s)) && Leaves(Balanced(s)) == s && Height(Balanced(s)) <= k
    decreases |s|
  {
    if |s| > 1 {
      var m := |s| / 2;
      assert k > 0;
      DoublePow2(k);
      BalancedShape(s[..m], k - 1);
      BalancedShape(s[m..], k - 1);
      assert s == s[..m] + s[m..];
    }
  }

  lemma {:induction false} PathCostWithinHeight(t: Tree, bag: Bag, k: nat)
    requires Full(t) && Height(t) <= k
    ensures PathCost(t, bag) <= k * Weight(t, bag)
    decreases t
  {
    if !IsLeaf(t) {
      PathCostWithinHeight(t.left, bag, k - 1);
      PathCostWithinHeight(t.right, bag, k - 1);
      OneLevelUp(k, Weight(t.left, bag), Weight(t.right, bag));
    }
  }

  lemma OneLevelUp(k: int, x: nat, y: nat)
    ensures (k - 1) * x + (k - 1) * y + x + y == k * (x + y)
  {
  }

  function SumOf(s: seq<word>, bag: Bag): nat
  {
    if s == [] then 0 else bag[s[0]] + SumOf(s[1..], bag)
  }

  lemma {:induction false} SumConcat(a: seq<word>, b: seq<word>, bag: Bag)
    ensures SumOf(a + b, bag) == SumOf(a, bag) + SumOf(b, bag)
  {
    if a == [] {
      assert a + b == b;
    } else {
      assert (a + b)[1..] == a[1..] + b;
      SumConcat(a[1..], b, bag);
    }
  }

  lemma {:induction false} WeightIsSum(t: Tree, bag: Bag)
    requires Full(t)
    ensures Weight(t, bag) == SumOf(Leaves(t), bag)
  {
    if IsLeaf(t) {
      assert Leaves(t)[1..] == [];
    } else {
      WeightIsSum(t.left, bag);
      WeightIsSum(t.right, bag);
      SumConcat(Leaves(t.left), Leaves(t.right), bag);
    }
  }

  lemma {:induction false} SumWithout(s: seq<word>, x: word, bag: Bag)
    requires x !in s
    ensures SumOf(s, bag) == SumOf(s, bag[x := 0])
  {
    if s != [] {
      SumWithout(s[1..], x, bag);
    }
  }

  lemma {:induction false} DistinctSum(s: seq<word>, bag: Bag)
    requires NoDup(s)
    ensures SumOf(s, bag) <= |bag|
    decreases |s|
  {
    if s != [] {
      var x := s[0];
      var bag' := bag[x := 0];
      assert NoDup(s[1..]);
      assert forall i :: 0 <= i < |s[1..]| ==> s[1..][i] == s[i + 1];
      SumWithout(s[1..], x, bag);
      DistinctSum(s[1..], bag');
      assert |bag'| == |bag| - bag[x];
    }
  }

  lemma {:induction false} AddOne(t: Tree, bag: Bag, b: byte)
    requires Full(t) && NoDup(Leaves(t))
    ensures Weight(t, bag + multiset{b}) == Weight(t, bag) + if b in Leaves(t) then 1 else 0
    ensures PathCost(t, bag + multiset{b}) == PathCost(t, bag) + if b in Leaves(t) then |Path(t, b)| else 0
  {
    hide NoDup;
    if !IsLeaf(t) {
      NoDupParts(Leaves(t.left), Leaves(t.right));
      AddOne(t.left, bag, b);
      AddOne(t.right, bag, b);
    }
  }

  /** The number of bits a byte string is coded in is its weighted path length. */
  lemma {:induction false} CodedLength(t: Tree, data: seq<byte>)
    requires Full(t) && !IsLeaf(t) && NoDup(Leaves(t))
    ensures |EncodeBits(Codes(t, []), data)| == PathCost(t, multiset(data))
  {
    hide NoDup;
    if data == [] {
      NoWeight(t);
    } else {
      CodedLength(t, data[1..]);
      CodeForPath(t, data[0]);
      AddOne(t, multiset(data[1..]), data[0]);
      assert data == [data[0]] + data[1..];
      assert multiset(data) == multiset(data[1..]) + multiset{data[0]};
    }
  }

  lemma {:induction false} NoWeight(t: Tree)
    ensures Weight(t, multiset{}) == 0 && PathCost(t, multiset{}) == 0
    decreases t
  {
    if t.Node? && !IsLeaf(t) {
      NoWeight(t.left);
      NoWeight(t.right);
    }
  }

  function PageCodes(data: seq<byte>): CodeMap
  {
    BuiltShape(data);
    Codes(BuildTree(data), [])
  }

  /** The code of the whole page has at most as many bits as the page itself. */
  lemma NoExpansion(data: seq<byte>)
    ensures |EncodeBits(PageCodes(data), data)| <= 8 * |data|
  {
    hide PathCost, Leaves, BuildTree, NoDup, Initial, InnerHigh, Pre, ByteLeaves, Codes, Size, MergeCost;
    if data != [] {
      hide EncodeBits;
      var t := BuildTree(data);
      BuiltShape(data);
      DistinctSymbols(t);
      CodedLength(t, data);
      assert Pow2(8) == 256;
      var u := Balanced(Leaves(t));
      BalancedShape(Leaves(t), 8);
      BuiltIsOptimal(data, u);
      PathCostWithinHeight(u, PageBag(data), 8);
      WeightIsSum(u, PageBag(data));
      DistinctSum(Leaves(t), PageBag(data));
    }
  }
}
