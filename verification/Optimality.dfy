/**
  Weighted path length of full binary trees, seen as a list of (weight, depth) slots whose depths
  fill the tree exactly. Exchanging weights between slots and folding the two deepest slots into
  one is all that the optimality of greedy merging needs.
 */
module Optimality {
  import opened Bytes
  import opened PrefixTree

  datatype Slot = Slot(weight: nat, depth: nat)

  function Area(x: Slot): nat { x.weight * x.depth }

  function Cost(p: seq<Slot>): nat
  {
    if p == [] then 0 else Area(p[0]) + Cost(p[1..])
  }

  function Weights(p: seq<Slot>): multiset<nat>
  {
    if p == [] then multiset{} else multiset{p[0].weight} + Weights(p[1..])
  }

  ghost predicate Within(p: seq<Slot>, d: nat)
  {
    forall x :: x in p ==> x.depth <= d
  }

  /** The share of a tree of depth d that the slots take up, in units of its deepest places. */
  function Kraft(p: seq<Slot>, d: nat): nat
    requires Within(p, d)
  {
    if p == [] then 0
    else
      assert p[0] in p;
      Pow2(d - p[0].depth) + Kraft(p[1..], d)
  }

  lemma WithinConcat(a: seq<Slot>, b: seq<Slot>, d: nat)
    requires Within(a, d) && Within(b, d)
    ensures Within(a + b, d)
  {
  }

  lemma {:induction false} CostConcat(a: seq<Slot>, b: seq<Slot>)
    ensures Cost(a + b) == Cost(a) + Cost(b)
  {
    hide Area;
    if a == [] {
      assert a + b == b;
    } else {
      assert (a + b)[1..] == a[1..] + b;
      CostConcat(a[1..], b);
    }
  }

  lemma {:induction false} WeightsConcat(a: seq<Slot>, b: seq<Slot>)
    ensures Weights(a + b) == Weights(a) + Weights(b)
  {
    if a == [] {
      assert a + b == b;
    } else {
      assert (a + b)[1..] == a[1..] + b;
      WeightsConcat(a[1..], b);
    }
  }

  lemma {:induction false} KraftConcat(a: seq<Slot>, b: seq<Slot>, d: nat)
    requires Within(a, d) && Within(b, d) && Within(a + b, d)
    ensures Kraft(a + b, d) == Kraft(a, d) + Kraft(b, d)
  {
    hide Pow2;
    if a == [] {
      assert a + b == b;
    } else {
      assert (a + b)[1..] == a[1..] + b;
      KraftConcat(a[1..], b, d);
    }
  }

  lemma Concat(a: seq<Slot>, b: seq<Slot>, d: nat)
    requires Within(a, d) && Within(b, d)
    ensures Within(a + b, d)
    ensures Cost(a + b) == Cost(a) + Cost(b)
    ensures Weights(a + b) == Weights(a) + Weights(b)
    ensures Kraft(a + b, d) == Kraft(a, d) + Kraft(b, d)
  {
    WithinConcat(a, b, d);
    CostConcat(a, b);
    WeightsConcat(a, b);
    KraftConcat(a, b, d);
  }

  function Without(p: seq<Slot>, i: nat): seq<Slot>
    requires i < |p|
  {
    p[..i] + p[i + 1..]
  }

  lemma WithoutHead(p: seq<Slot>, i: nat)
    requires i < |p|
    ensures i == 0 ==> Without(p, i) == p[1..]
    ensures i > 0 ==> Without(p, i) != [] && Without(p, i)[0] == p[0] && Without(p, i)[1..] == Without(p[1..], i - 1)
  {
    if i > 0 {
      assert Without(p, i) == [p[0]] + Without(p[1..], i - 1);
    }
  }

  lemma WithinParts(p: seq<Slot>, i: nat, d: nat)
    requires i < |p| && Within(p, d)
    ensures p[i].depth <= d && Within(p[1..], d) && Within(Without(p, i), d)
  {
    assert p[i] in p;
  }

  lemma {:induction false} CutCost(p: seq<Slot>, i: nat)
    requires i < |p|
    ensures Cost(p) == Cost(Without(p, i)) + Area(p[i])
    decreases |p|
  {
    hide Area, Without;
    WithoutHead(p, i);
    if i > 0 {
      CutCost(p[1..], i - 1);
    }
  }

  lemma {:induction false} CutWeights(p: seq<Slot>, i: nat)
    requires i < |p|
    ensures Weights(p) == Weights(Without(p, i)) + multiset{p[i].weight}
    decreases |p|
  {
    hide Without;
    WithoutHead(p, i);
    if i > 0 {
      CutWeights(p[1..], i - 1);
    }
  }

  lemma {:induction false} CutKraft(p: seq<Slot>, i: nat, d: nat)
    requires i < |p| && Within(p, d) && Within(Without(p, i), d) && p[i].depth <= d
    ensures Kraft(p, d) == Kraft(Without(p, i), d) + Pow2(d - p[i].depth)
    decreases |p|
  {
    hide Pow2, Within, Without;
    WithoutHead(p, i);
    WithinParts(p, 0, d);
    if i > 0 {
      WithinParts(p[1..], i - 1, d);
      CutKraft(p[1..], i - 1, d);
    }
  }

  /** What taking slot i away takes away. */
  lemma Cut(p: seq<Slot>, i: nat, d: nat)
    requires i < |p| && Within(p, d)
    ensures Within(Without(p, i), d) && p[i].depth <= d
    ensures Cost(p) == Cost(Without(p, i)) + Area(p[i])
    ensures Weights(p) == Weights(Without(p, i)) + multiset{p[i].weight}
    ensures Kraft(p, d) == Kraft(Without(p, i), d) + Pow2(d - p[i].depth)
  {
    hide Pow2, Area, Within, Without, Cost, Weights, Kraft;
    WithinParts(p, i, d);
    CutCost(p, i);
    CutWeights(p, i);
    CutKraft(p, i, d);
  }

  lemma {:induction false} WeightsSize(p: seq<Slot>)
    ensures |Weights(p)| == |p|
  {
    if p != [] {
      WeightsSize(p[1..]);
    }
  }

  lemma {:induction false} FindWeight(p: seq<Slot>, w: nat) returns (i: nat)
    requires w in Weights(p)
    ensures i < |p| && p[i].weight == w
  {
    if p[0].weight == w {
      i := 0;
    } else {
      i := FindWeight(p[1..], w);
      i := i + 1;
    }
  }

  /** Moving the lightest weight to a deepest slot never raises the cost. */
  lemma Exchange(p: seq<Slot>, i: nat, a: nat, d: nat) returns (q: seq<Slot>)
    requires i < |p| && Within(p, d) && p[i].depth == d
    requires a in Weights(p) && a <= p[i].weight
    ensures |q| == |p| && Within(q, d) && q[i] == Slot(a, d)
    ensures Weights(q) == Weights(p) && Kraft(q, d) == Kraft(p, d) && Cost(q) <= Cost(p)
  {
    hide Pow2, Area, Within, Cost, Kraft, Weights;
    var k := FindWeight(p, a);
    if p[k].weight == p[i].weight {
      return p;
    }
    var w := p[i].weight;
    var m := Reweigh(p, k, w, d);
    q := Reweigh(m, i, a, d);
    DepthWithin(p, k, d);
    assert Weights(m) == (Weights(m) + multiset{a}) - multiset{a};
    assert Weights(q) == (Weights(q) + multiset{w}) - multiset{w};
    SwapGain(a, w, p[k].depth, d);
  }

  /** Slot k with another weight. */
  lemma Reweigh(p: seq<Slot>, k: nat, w: nat, d: nat) returns (q: seq<Slot>)
    requires k < |p| && Within(p, d)
    ensures q == p[k := Slot(w, p[k].depth)] && Within(q, d) && Kraft(q, d) == Kraft(p, d)
    ensures Cost(q) + Area(p[k]) == Cost(p) + Area(q[k])
    ensures Weights(q) + multiset{p[k].weight} == Weights(p) + multiset{w}
  {
    hide Pow2, Area, Cost, Kraft, Weights;
    q := p[k := Slot(w, p[k].depth)];
    SameDepths(p, q, d);
    Cut(p, k, d);
    Cut(q, k, d);
    assert Without(p, k) == Without(q, k);
  }

  lemma DepthWithin(p: seq<Slot>, k: nat, d: nat)
    requires k < |p| && Within(p, d)
    ensures p[k].depth <= d
  {
    assert p[k] in p;
  }

  lemma SwapGain(a: nat, w: nat, e: nat, d: nat)
    requires a <= w && e <= d
    ensures Area(Slot(w, e)) + Area(Slot(a, d)) <= Area(Slot(a, e)) + Area(Slot(w, d))
  {
    assert (w - a) * (d - e) >= 0;
    assert (w - a) * (d - e) == w * d - w * e - a * d + a * e;
  }

  lemma SameDepths(p: seq<Slot>, q: seq<Slot>, d: nat)
    requires |p| == |q| && Within(p, d)
    requires forall i :: 0 <= i < |p| ==> p[i].depth == q[i].depth
    ensures Within(q, d)
  {
    forall x | x in q
      ensures x.depth <= d
    {
      var i :| 0 <= i < |q| && q[i] == x;
      assert p[i] in p;
    }
  }

  /** If no slot is at depth d, everything fits half as deep. */
  lemma {:induction false} Halve(p: seq<Slot>, d: nat)
    requires d > 0 && Within(p, d - 1)
    ensures Within(p, d) && Kraft(p, d) == 2 * Kraft(p, d - 1)
    decreases p
  {
    if p != [] {
      assert p[0] in p;
      Halve(p[1..], d);
    }
  }

  lemma FindDepth(p: seq<Slot>, d: nat) returns (i: nat)
    requires d > 0 && Within(p, d) && !Within(p, d - 1)
    ensures i < |p| && p[i].depth == d
  {
    var x :| x in p && x.depth > d - 1;
    i :| 0 <= i < |p| && p[i] == x;
  }

  lemma {:induction false} FlatKraft(p: seq<Slot>)
    requires Within(p, 0)
    ensures Kraft(p, 0) == |p|
  {
    if p != [] {
      assert p[0] in p;
      FlatKraft(p[1..]);
    }
  }

  /** Fold the two lightest weights, moved to two deepest slots, into one slot one level up. */
  lemma Fold(p: seq<Slot>, a: nat, b: nat, rest: multiset<nat>, d: nat) returns (q: seq<Slot>)
    requires d > 0 && Within(p, d) && !Within(p, d - 1)
    requires Kraft(p, d) == Pow2(d)
    requires Weights(p) == rest + multiset{a} + multiset{b}
    requires a <= b && forall w :: w in rest ==> b <= w
    ensures Within(q, d) && Kraft(q, d) == Pow2(d)
    ensures Weights(q) == rest + multiset{a + b}
    ensures Cost(q) + a + b <= Cost(p)
  {
    hide Pow2, Area, Within, Cost, Kraft, Weights;
    var i := FindDepth(p, d);
    WeightAt(p, i, d);
    var p1 := Exchange(p, i, a, d);
    Cut(p1, i, d);
    var r := Without(p1, i);
    assert Weights(r) == Weights(p1) - multiset{a} == rest + multiset{b};
    OddKraft(r, d);
    q := FoldSecond(r, a, b, rest, d);
  }

  /** The second half of a fold, once a slot of weight a is taken off the deepest level. */
  lemma FoldSecond(r: seq<Slot>, a: nat, b: nat, rest: multiset<nat>, d: nat) returns (q: seq<Slot>)
    requires d > 0 && Within(r, d) && !Within(r, d - 1)
    requires Kraft(r, d) + Pow2(0) == Pow2(d)
    requires Weights(r) == rest + multiset{b} && forall w :: w in rest ==> b <= w
    ensures Within(q, d) && Kraft(q, d) == Pow2(d)
    ensures Weights(q) == rest + multiset{a + b}
    ensures Cost(q) + a + b <= Cost(r) + Area(Slot(a, d))
  {
    hide Pow2, Area, Within, Cost, Kraft, Weights;
    var j := FindDepth(r, d);
    WeightAt(r, j, d);
    var r1 := Exchange(r, j, b, d);
    Cut(r1, j, d);
    var s := Without(r1, j);
    assert Weights(s) == Weights(r1) - multiset{b} == rest;
    q := s + [Slot(a + b, d - 1)];
    Top(a, b, d);
    Concat(s, [Slot(a + b, d - 1)], d);
  }

  lemma WeightAt(p: seq<Slot>, i: nat, d: nat)
    requires i < |p| && Within(p, d)
    ensures p[i].weight in Weights(p)
  {
    Cut(p, i, d);
  }

  /** With one deepest place missing, another deepest slot is left over. */
  lemma OddKraft(r: seq<Slot>, d: nat)
    requires d > 0 && Within(r, d) && Kraft(r, d) + Pow2(0) == Pow2(d)
    ensures !Within(r, d - 1)
  {
    DoublePow2(d);
    if Within(r, d - 1) {
      Halve(r, d);
    }
  }

  lemma Top(a: nat, b: nat, d: nat)
    requires d > 0
    ensures var top := [Slot(a + b, d - 1)];
            && Within(top, d) && Kraft(top, d) == 2 * Pow2(0) && Weights(top) == multiset{a + b}
            && Cost(top) + a + b == Area(Slot(a, d)) + Area(Slot(b, d))
  {
    var top := [Slot(a + b, d - 1)];
    assert top[1..] == [];
    assert Pow2(1) == 2;
    assert (a + b) * (d - 1) == a * d + b * d - a - b;
  }

  // ----- trees as slots

  type Bag = multiset<int>

  function Weight(t: Tree, bag: Bag): nat
  {
    if t.Nil? then 0 else if IsLeaf(t) then bag[t.symbol] else Weight(t.left, bag) + Weight(t.right, bag)
  }

  /** Weighted path length: every leaf's weight times its depth. */
  function PathCost(t: Tree, bag: Bag): nat
  {
    if t.Nil? || IsLeaf(t) then 0
    else PathCost(t.left, bag) + PathCost(t.right, bag) + Weight(t, bag)
  }

  function Height(t: Tree): nat
  {
    if t.Nil? || IsLeaf(t) then 0
    else 1 + if Height(t.left) > Height(t.right) then Height(t.left) else Height(t.right)
  }

  function Slots(t: Tree, bag: Bag, d: nat): seq<Slot>
    requires Full(t)
  {
    if IsLeaf(t) then [Slot(bag[t.symbol], d)] else Slots(t.left, bag, d + 1) + Slots(t.right, bag, d + 1)
  }

  function WeightsOf(s: seq<word>, bag: Bag): multiset<nat>
  {
    if s == [] then multiset{} else multiset{bag[s[0]]} + WeightsOf(s[1..], bag)
  }

  lemma {:induction false} WeightsOfConcat(a: seq<word>, b: seq<word>, bag: Bag)
    ensures WeightsOf(a + b, bag) == WeightsOf(a, bag) + WeightsOf(b, bag)
  {
    if a == [] {
      assert a + b == b;
    } else {
      assert (a + b)[1..] == a[1..] + b;
      WeightsOfConcat(a[1..], b, bag);
    }
  }

  /** s without its first x. */
  function Drop(s: seq<word>, x: word): seq<word>
  {
    if s == [] then [] else if s[0] == x then s[1..] else [s[0]] + Drop(s[1..], x)
  }

  lemma {:induction false} DropBag(s: seq<word>, x: word)
    requires x in s
    ensures multiset(s) == multiset{x} + multiset(Drop(s, x))
  {
    assert s == [s[0]] + s[1..];
    if s[0] != x {
      DropBag(s[1..], x);
    }
  }

  /** Dropping an element drops its weight. */
  lemma {:induction false} WeightsOfDrop(s: seq<word>, x: word, bag: Bag)
    requires x in s
    ensures WeightsOf(s, bag) == multiset{bag[x]} + WeightsOf(Drop(s, x), bag)
  {
    if s[0] != x {
      WeightsOfDrop(s[1..], x, bag);
      assert Drop(s, x)[1..] == Drop(s[1..], x);
    }
  }

  lemma {:induction false} WeightsOfPermutation(a: seq<word>, b: seq<word>, bag: Bag)
    requires multiset(a) == multiset(b)
    ensures WeightsOf(a, bag) == WeightsOf(b, bag)
  {
    if a == [] {
      assert |b| == |multiset(b)| == |multiset(a)| == 0;
    } else {
      assert a[0] in multiset(a);
      WeightsOfDrop(a, a[0], bag);
      WeightsOfDrop(b, a[0], bag);
      DropBag(a, a[0]);
      DropBag(b, a[0]);
      assert Drop(a, a[0]) == a[1..];
      assert multiset(Drop(b, a[0])) == multiset(b) - multiset{a[0]} == multiset(a[1..]);
      WeightsOfPermutation(a[1..], Drop(b, a[0]), bag);
    }
  }

  lemma {:induction false} SlotsCost(t: Tree, bag: Bag, d: nat)
    requires Full(t)
    ensures Cost(Slots(t, bag, d)) == PathCost(t, bag) + d * Weight(t, bag)
    decreases t
  {
    if IsLeaf(t) {
      assert Slots(t, bag, d)[1..] == [];
    } else {
      hide Cost;
      SlotsCost(t.left, bag, d + 1);
      SlotsCost(t.right, bag, d + 1);
      CostConcat(Slots(t.left, bag, d + 1), Slots(t.right, bag, d + 1));
      Deeper(d, Weight(t.left, bag), Weight(t.right, bag));
    }
  }

  lemma {:induction false} SlotsKraft(t: Tree, bag: Bag, d: nat, deep: nat)
    requires Full(t) && d + Height(t) <= deep
    ensures Within(Slots(t, bag, d), deep)
    ensures Kraft(Slots(t, bag, d), deep) == Pow2(deep - d)
    decreases t
  {
    if IsLeaf(t) {
      hide Pow2;
      assert Slots(t, bag, d)[1..] == [];
    } else {
      hide Kraft, Within;
      SlotsKraft(t.left, bag, d + 1, deep);
      SlotsKraft(t.right, bag, d + 1, deep);
      Concat(Slots(t.left, bag, d + 1), Slots(t.right, bag, d + 1), deep);
      DoublePow2(deep - d);
    }
  }

  lemma {:induction false} SlotsWeights(t: Tree, bag: Bag, d: nat)
    requires Full(t)
    ensures Weights(Slots(t, bag, d)) == WeightsOf(Leaves(t), bag)
    decreases t
  {
    if IsLeaf(t) {
      assert Slots(t, bag, d)[1..] == [] && Leaves(t)[1..] == [];
    } else {
      hide Weights, WeightsOf;
      SlotsWeights(t.left, bag, d + 1);
      SlotsWeights(t.right, bag, d + 1);
      WeightsConcat(Slots(t.left, bag, d + 1), Slots(t.right, bag, d + 1));
      WeightsOfConcat(Leaves(t.left), Leaves(t.right), bag);
    }
  }

  lemma DoublePow2(n: nat)
    requires n > 0
    ensures Pow2(n) == Pow2(n - 1) + Pow2(n - 1)
  {
  }

  lemma Deeper(d: nat, x: nat, y: nat)
    ensures (d + 1) * x + (d + 1) * y == x + y + d * (x + y)
  {
  }
}
