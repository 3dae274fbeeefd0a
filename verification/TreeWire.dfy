/** The code tree on the wire: its preorder and inorder symbols as 16-bit words. */
module TreeWire {
  import opened Prelude
  import opened Bytes
  import opened PrefixTree

  function Pre(t: Tree): seq<word>
  {
    if t.Nil? then [] else [t.symbol] + Pre(t.left) + Pre(t.right)
  }

  function Mid(t: Tree): seq<word>
  {
    if t.Nil? then [] else Mid(t.left) + [t.symbol] + Mid(t.right)
  }

  function Words(s: seq<word>): (d: seq<byte>)
    ensures |d| == 2 * |s|
  {
    if s == [] then [] else PutWord(s[0]) + Words(s[1..])
  }

  function Serialized(t: Tree): seq<byte> { Words(Pre(t) + Mid(t)) }

  /** The two closures of SerializedTraversals appending to captured slices. */
  class TreeWriter {
    var pre: seq<word>
    var mid: seq<word>

    constructor ()
      ensures pre == [] && mid == []
    {
      pre, mid := [], [];
    }

    method Preorder(t: Tree)
      requires t.Node?
      modifies this`pre
      ensures pre == old(pre) + Pre(t)
      decreases t
    {
      pre := pre + [t.symbol];
      if t.left.Node? {
        Preorder(t.left);
      }
      if t.right.Node? {
        Preorder(t.right);
      }
    }

    method Inorder(t: Tree)
      requires t.Node?
      modifies this`mid
      ensures mid == old(mid) + Mid(t)
      decreases t
    {
      if t.left.Node? {
        Inorder(t.left);
      }
      mid := mid + [t.symbol];
      if t.right.Node? {
        Inorder(t.right);
      }
    }
  }

  method SerializedTraversals(root: Tree) returns (data: seq<byte>)
    requires root.Node?
    ensures data == Serialized(root)
  {
    var w := new TreeWriter();
    w.Preorder(root);
    w.Inorder(root);
    data := StoreWords(w.pre + w.mid);
    assert w.pre == Pre(root) && w.mid == Mid(root);
  }

  method StoreWords(all: seq<word>) returns (data: seq<byte>)
    ensures data == Words(all)
  {
    var out := new byte[2 * |all|];
    for i := 0 to |all|
      invariant out[..2 * i] == Words(all[..i])
    {
      var le := PutWord(all[i]);
      ghost var done := out[..2 * i];
      out[2 * i] := le[0];
      out[2 * i + 1] := le[1];
      assert out[..2 * i + 2] == done + le;
      WordsAppend(all[..i], all[i]);
      assert all[..i] + [all[i]] == all[..i + 1];
    }
    assert all[..|all|] == all && out[..] == out[..2 * |all|];
    data := out[..];
  }

  lemma {:induction false} WordsAppend(s: seq<word>, x: word)
    ensures Words(s + [x]) == Words(s) + PutWord(x)
  {
    hide PutWord;
    if s == [] {
      assert Words([x]) == PutWord(x) + [];
    } else {
      assert (s + [x])[1..] == s[1..] + [x];
      WordsAppend(s[1..], x);
    }
  }

  // ----- reading a tree back

  datatype TreeError = TreeSize | TreeTooLarge | DuplicateSymbols | TreeSymbols | Traversal | InvalidLeaf | Incomplete

  /** The words stored in an even number of bytes. */
  function WordsOf(data: seq<byte>): (s: seq<word>)
    requires |data| % 2 == 0
    ensures |s| == |data| / 2
  {
    if data == [] then [] else [GetWord(data[0], data[1])] + WordsOf(data[2..])
  }

  lemma {:induction false} WordsOfAt(data: seq<byte>, i: nat)
    requires |data| % 2 == 0 && 2 * i < |data|
    ensures WordsOf(data)[i] == GetWord(data[2 * i], data[2 * i + 1])
  {
    if i > 0 {
      WordsOfAt(data[2..], i - 1);
    }
  }

  /** First index in [lo, hi) that holds s. */
  function Find(mid: seq<word>, lo: nat, hi: nat, s: word): (r: Result<nat, TreeError>)
    requires hi <= |mid|
    ensures r.Ok? ==> lo <= r.value < hi && mid[r.value] == s && s !in mid[lo..r.value]
    ensures r.Err? ==> forall i :: lo <= i < hi ==> mid[i] != s
    decreases hi - lo
  {
    if lo >= hi then Err(Traversal)
    else if mid[lo] == s then Ok(lo)
    else
      var r := Find(mid, lo + 1, hi, s);
      assert r.Ok? ==> mid[lo..r.value] == [mid[lo]] + mid[lo + 1..r.value];
      r
  }

  type Built = Result<(Tree, nat), TreeError>

  /** The tree whose inorder is mid[lo..hi], taking roots from pre[pi..], and the next unused root. */
  function Build(pre: seq<word>, mid: seq<word>, pi: nat, lo: nat, hi: nat): (r: Built)
    requires hi <= |mid|
    ensures r.Ok? ==> r.value.0.Node? && pi < r.value.1 <= |pre|
    decreases hi - lo, 0
  {
    if lo >= hi || pi >= |pre| then Err(Traversal) else
    match Find(mid, lo, hi, pre[pi])
    case Err(e) => Err(e)
    case Ok(split) =>
      match BuildChild(pre, mid, pi + 1, lo, split)
      case Err(e) => Err(e)
      case Ok((l, pl)) =>
        match BuildChild(pre, mid, pl, split + 1, hi)
        case Err(e) => Err(e)
        case Ok((r, pr)) => Ok((Node(pre[pi], l, r), pr))
  }

  /** A child is absent when its range is empty. */
  function BuildChild(pre: seq<word>, mid: seq<word>, pi: nat, lo: nat, hi: nat): (r: Built)
    requires lo <= hi <= |mid| && pi <= |pre|
    ensures r.Ok? ==> pi <= r.value.1 <= |pre|
    decreases hi - lo, 1
  {
    if lo < hi then Build(pre, mid, pi, lo, hi) else Ok((Nil, pi))
  }

  function Validate(t: Tree): Result<(), TreeError>
    requires t.Node?
  {
    if IsLeaf(t) then (if t.symbol >= 256 then Err(InvalidLeaf) else Ok(()))
    else if t.left.Nil? || t.right.Nil? then Err(Incomplete)
    else match Validate(t.left)
      case Err(e) => Err(e)
      case Ok(_) => Validate(t.right)
  }

  function Assemble(pre: seq<word>, mid: seq<word>): Result<Tree, TreeError>
    requires |pre| == |mid|
  {
    if !NoDup(pre) || !NoDup(mid) then Err(DuplicateSymbols) else
    if exists x :: x in pre && x !in mid then Err(TreeSymbols) else
    match Build(pre, mid, 0, 0, |mid|)
    case Err(e) => Err(Traversal)
    case Ok((root, pi)) =>
      if pi != |pre| then Err(Traversal) else
      match Validate(root)
      case Err(e) => Err(e)
      case Ok(_) => Ok(root)
  }

  /** What treeFrom makes of a tree payload. `limit` is the largest node count it takes. */
  function TreeOf(data: seq<byte>, limit: nat): Result<Tree, TreeError>
  {
    if |data| == 0 || |data| % 4 != 0 then Err(TreeSize) else
    var n := |data| / 4;
    if n > limit then Err(TreeTooLarge) else
    var (pre, mid) := Halves(data);
    Assemble(pre, mid)
  }

  function Halves(data: seq<byte>): (r: (seq<word>, seq<word>))
    requires |data| % 4 == 0
    ensures |r.0| == |r.1| == |data| / 4
  {
    (WordsOf(data)[..|data| / 4], WordsOf(data)[|data| / 4..])
  }

  class TreeReader {
    const pre: seq<word>
    const mid: seq<word>
    var pi: nat

    constructor (pre: seq<word>, mid: seq<word>)
      ensures this.pre == pre && this.mid == mid && pi == 0
    {
      this.pre, this.mid, pi := pre, mid, 0;
    }

    method BuildRange(lo: nat, hi: nat) returns (r: Result<Tree, TreeError>)
      requires hi <= |mid|
      modifies this
      ensures match Build(pre, mid, old(pi), lo, hi)
              case Ok((t, next)) => r == Ok(t) && pi == next
              case Err(e) => r.Err?
      decreases hi - lo
    {
      if lo >= hi || pi >= |pre| {
        return Err(Traversal);
      }
      var s := pre[pi];
      pi := pi + 1;
      var split := lo;
      while split < hi && mid[split] != s
        invariant lo <= split <= hi
        invariant Find(mid, lo, hi, s) == Find(mid, split, hi, s)
      {
        split := split + 1;
      }
      if split == hi {
        assert Find(mid, lo, hi, s).Err?;
        return Err(Traversal);
      }
      assert Find(mid, lo, hi, s) == Ok(split);
      var left, right := Nil, Nil;
      if split > lo {
        var l := BuildRange(lo, split);
        if l.Err? {
          return l;
        }
        left := l.value;
      }
      assert BuildChild(pre, mid, old(pi) + 1, lo, split) == Ok((left, pi));
      ghost var pl := pi;
      if split + 1 < hi {
        var x := BuildRange(split + 1, hi);
        if x.Err? {
          assert BuildChild(pre, mid, pl, split + 1, hi).Err?;
          return x;
        }
        right := x.value;
      }
      assert BuildChild(pre, mid, pl, split + 1, hi) == Ok((right, pi));
      return Ok(Node(s, left, right));
    }
  }

  method TreeFrom(data: seq<byte>) returns (r: Result<Tree, TreeError>)
    ensures r == TreeOf(data, 511)
  {
    hide NoDup, Build, GetWord;
    if |data| == 0 || |data| % 4 != 0 {
      return Err(TreeSize);
    }
    var n := |data| / 4;
    if n > 511 {
      return Err(TreeTooLarge);
    }
    var symbols := ReadSymbols(data, n);
    if symbols.Err? {
      return Err(DuplicateSymbols);
    }
    var (pre, mid) := symbols.value;
    for i := 0 to n
      invariant forall k :: 0 <= k < i ==> pre[k] in mid
    {
      if pre[i] !in mid {
        return Err(TreeSymbols);
      }
    }
    var reader := new TreeReader(pre, mid);
    var built := reader.BuildRange(0, n);
    if built.Err? || reader.pi != n {
      return Err(Traversal);
    }
    match Validate(built.value)
    case Err(e) => return Err(e);
    case Ok(_) => return built;
  }

  /** The loop that fills both arrays and stops at the first repeated symbol of either. */
  method ReadSymbols(data: seq<byte>, n: nat) returns (r: Result<(seq<word>, seq<word>), TreeError>)
    requires |data| % 4 == 0 && n == |data| / 4
    ensures r == if NoDup(Halves(data).0) && NoDup(Halves(data).1) then Ok(Halves(data)) else Err(DuplicateSymbols)
  {
    hide NoDup, GetWord, WordsOf;
    ghost var (p, m) := Halves(data);
    var pre: seq<word>, mid: seq<word> := [], [];
    NoDupGrow([], 0);
    for i := 0 to n
      invariant pre == p[..i] && mid == m[..i]
      invariant NoDup(pre) && NoDup(mid)
    {
      var a := GetWord(data[2 * i], data[2 * i + 1]);
      var b := GetWord(data[2 * n + 2 * i], data[2 * n + 2 * i + 1]);
      WordsOfAt(data, i);
      WordsOfAt(data, n + i);
      assert p[i] == a && m[i] == b;
      if a in pre || b in mid {
        RepeatedWord(p, i);
        RepeatedWord(m, i);
        return Err(DuplicateSymbols);
      }
      NoDupGrow(pre, a);
      NoDupGrow(mid, b);
      pre, mid := pre + [a], mid + [b];
    }
    assert p[..n] == p && m[..n] == m;
    return Ok((pre, mid));
  }

  lemma NoDupGrow(s: seq<word>, x: word)
    requires NoDup(s) || s == []
    ensures NoDup(s)
    ensures x !in s ==> NoDup(s + [x])
  {
  }

  lemma RepeatedWord(s: seq<word>, i: nat)
    requires i < |s|
    ensures s[i] in s[..i] ==> !NoDup(s)
  {
    if s[i] in s[..i] {
      var k :| 0 <= k < i && s[..i][k] == s[i];
      assert s[k] == s[i];
    }
  }

  // ----- serialising and reading are mutual inverses

  lemma {:induction false} WordsRoundTrip(s: seq<word>)
    ensures WordsOf(Words(s)) == s
  {
    if s != [] {
      hide PutWord, GetWord;
      WordRoundTrip(s[0], 0, 0);
      assert Words(s)[2..] == Words(s[1..]);
      WordsRoundTrip(s[1..]);
    }
  }

  lemma {:induction false} WordsOfRoundTrip(data: seq<byte>)
    requires |data| % 2 == 0
    ensures Words(WordsOf(data)) == data
  {
    if data != [] {
      hide PutWord, GetWord;
      WordRoundTrip(0, data[0], data[1]);
      WordsOfRoundTrip(data[2..]);
      assert WordsOf(data)[1..] == WordsOf(data[2..]);
      assert data == [data[0], data[1]] + data[2..];
    }
  }

  lemma {:induction false} TraversalSizes(t: Tree)
    ensures |Pre(t)| == Size(t) == |Mid(t)|
    decreases t
  {
    if t.Node? {
      TraversalSizes(t.left);
      TraversalSizes(t.right);
    }
  }

  lemma {:induction false} WordsLayout(s: seq<word>, i: nat)
    requires i < |s|
    ensures s[i] == Words(s)[2 * i] as int + 256 * Words(s)[2 * i + 1] as int
  {
    if i > 0 {
      WordsLayout(s[1..], i - 1);
      assert Words(s)[2..] == Words(s[1..]);
    }
  }

  /** The bytes of a tree of n nodes, as numbers: word i, low byte first, is the i-th preorder symbol,
      word n + i the i-th inorder symbol. */
  lemma SerializedLayout(t: Tree)
    ensures var d, n := Serialized(t), Size(t);
            && |d| == 4 * n && |Pre(t)| == n && |Mid(t)| == n
            && (forall i :: 0 <= i < n ==> Pre(t)[i] == d[2 * i] as int + 256 * d[2 * i + 1] as int)
            && (forall i :: 0 <= i < n ==> Mid(t)[i] == d[2 * (n + i)] as int + 256 * d[2 * (n + i) + 1] as int)
  {
    hide Words, Pre, Mid, Size;
    TraversalSizes(t);
    var n, s := Size(t), Pre(t) + Mid(t);
    forall i | 0 <= i < 2 * n
      ensures s[i] == Serialized(t)[2 * i] as int + 256 * Serialized(t)[2 * i + 1] as int
    {
      WordsLayout(s, i);
    }
    assert forall i :: 0 <= i < n ==> s[i] == Pre(t)[i] && s[n + i] == Mid(t)[i];
  }

  /** Where a node stands: first in its preorder, and in its inorder behind all of its left side. */
  lemma TraversalPlaces(t: Tree)
    requires t.Node?
    ensures |Pre(t)| == |Mid(t)| == Size(t)
    ensures Pre(t)[0] == t.symbol
    ensures Pre(t)[1..1 + Size(t.left)] == Pre(t.left) && Pre(t)[1 + Size(t.left)..] == Pre(t.right)
    ensures Mid(t)[Size(t.left)] == t.symbol
    ensures Mid(t)[..Size(t.left)] == Mid(t.left) && Mid(t)[Size(t.left) + 1..] == Mid(t.right)
  {
    TraversalSizes(t);
    TraversalSizes(t.left);
    TraversalSizes(t.right);
  }

  lemma {:induction false} TraversalBags(t: Tree)
    ensures multiset(Pre(t)) == multiset(Mid(t))
    ensures multiset(Leaves(t)) <= multiset(Pre(t))
    decreases t
  {
    if t.Node? {
      TraversalBags(t.left);
      TraversalBags(t.right);
    }
  }

  lemma NoDupCount<T>(s: seq<T>)
    ensures NoDup(s) <==> forall x :: multiset(s)[x] <= 1
  {
    if s != [] {
      var k := |s| - 1;
      assert s == s[..k] + [s[k]];
      NoDupCount(s[..k]);
      if NoDup(s) {
        assert NoDup(s[..k]);
        assert s[k] !in multiset(s[..k]) by {
          assert s[k] !in s[..k];
        }
      }
      if forall x :: multiset(s)[x] <= 1 {
        assert forall x :: multiset(s[..k])[x] <= multiset(s)[x];
        assert multiset(s)[s[k]] == multiset(s[..k])[s[k]] + 1;
        assert s[k] !in multiset(s[..k]);
        assert s[k] !in s[..k];
        forall i, j | 0 <= i < j < |s|
          ensures s[i] != s[j]
        {
          if j < k {
            assert s[..k][i] != s[..k][j];
          } else {
            assert s[i] == s[..k][i];
          }
        }
      }
    }
  }

  lemma DistinctSymbols(t: Tree)
    requires NoDup(Pre(t))
    ensures NoDup(Mid(t)) && NoDup(Leaves(t))
    ensures forall x :: x in Pre(t) <==> x in Mid(t)
  {
    TraversalBags(t);
    NoDupCount(Pre(t));
    NoDupCount(Mid(t));
    NoDupCount(Leaves(t));
    forall x
      ensures x in Pre(t) <==> x in Mid(t)
    {
      assert x in Pre(t) <==> x in multiset(Pre(t));
      assert x in Mid(t) <==> x in multiset(Mid(t));
    }
  }

  /** The root's place in an inorder without repeats. */
  lemma FindRoot(mid: seq<word>, lo: nat, hi: nat, t: Tree)
    requires lo <= hi <= |mid| && NoDup(mid) && t.Node? && mid[lo..hi] == Mid(t)
    ensures Find(mid, lo, hi, t.symbol) == Ok(lo + |Mid(t.left)|)
    ensures mid[lo..lo + |Mid(t.left)|] == Mid(t.left)
    ensures mid[lo + |Mid(t.left)| + 1..hi] == Mid(t.right)
  {
    var k := lo + |Mid(t.left)|;
    assert mid[k] == mid[lo..hi][k - lo] == t.symbol;
    assert mid[lo..k] == mid[lo..hi][..k - lo];
    assert mid[k + 1..hi] == mid[lo..hi][k - lo + 1..];
    var r := Find(mid, lo, hi, t.symbol);
    assert r.Ok?;
    assert mid[r.value] == mid[k];
  }

  lemma SliceThree(s: seq<word>, i: nat, x: word, a: seq<word>, b: seq<word>)
    requires i + 1 + |a| + |b| <= |s| && s[i..i + 1 + |a| + |b|] == [x] + a + b
    ensures s[i] == x
    ensures s[i + 1..i + 1 + |a|] == a
    ensures s[i + 1 + |a|..i + 1 + |a| + |b|] == b
  {
    var p := s[i..i + 1 + |a| + |b|];
    assert p[0] == s[i];
    assert p[1..1 + |a|] == a && p[1 + |a|..] == b;
    SliceOfSlice(s, i, |p|, 1, 1 + |a|);
    SliceOfSlice(s, i, |p|, 1 + |a|, |p|);
  }

  lemma SliceOfSlice(s: seq<word>, i: nat, n: nat, j: nat, k: nat)
    requires i + n <= |s| && j <= k <= n
    ensures s[i..i + n][j..k] == s[i + j..i + k]
  {
    var x, y := s[i..i + n][j..k], s[i + j..i + k];
    forall m | 0 <= m < k - j
      ensures x[m] == y[m]
    {
      assert x[m] == s[i..i + n][j + m];
    }
  }

  lemma BuildStep(pre: seq<word>, mid: seq<word>, pi: nat, lo: nat, split: nat, hi: nat, l: Tree, pl: nat, r: Tree, pr: nat)
    requires lo <= split < hi <= |mid| && pi < |pre| && pl <= |pre|
    requires Find(mid, lo, hi, pre[pi]) == Ok(split)
    requires BuildChild(pre, mid, pi + 1, lo, split) == Ok((l, pl))
    requires BuildChild(pre, mid, pl, split + 1, hi) == Ok((r, pr))
    ensures BuildChild(pre, mid, pi, lo, hi) == Ok((Node(pre[pi], l, r), pr))
  {
  }

  lemma PreParts(t: Tree)
    requires t.Node?
    ensures Pre(t) == [t.symbol] + Pre(t.left) + Pre(t.right)
    ensures |Pre(t)| == 1 + |Pre(t.left)| + |Pre(t.right)|
  {
  }

  /** Where the traversals of the children lie in those of the tree. */
  lemma ChildSlices(pre: seq<word>, mid: seq<word>, pi: nat, lo: nat, hi: nat, t: Tree)
    requires lo <= hi <= |mid| && NoDup(mid) && t.Node? && mid[lo..hi] == Mid(t)
    requires pi + |Pre(t)| <= |pre| && pre[pi..pi + |Pre(t)|] == Pre(t)
    ensures var split := lo + |Mid(t.left)|; var pl := pi + 1 + |Pre(t.left)|;
            && split < hi && pi < |pre| && pre[pi] == t.symbol && Find(mid, lo, hi, t.symbol) == Ok(split)
            && mid[lo..split] == Mid(t.left) && mid[split + 1..hi] == Mid(t.right)
            && pl + |Pre(t.right)| == pi + |Pre(t)| && pre[pi + 1..pl] == Pre(t.left)
            && pre[pl..pl + |Pre(t.right)|] == Pre(t.right)
  {
    hide NoDup, Pre;
    PreParts(t);
    FindRoot(mid, lo, hi, t);
    SliceThree(pre, pi, t.symbol, Pre(t.left), Pre(t.right));
  }

  lemma AbsentChild(pre: seq<word>, mid: seq<word>, pi: nat, lo: nat, hi: nat)
    requires lo <= hi <= |mid| && mid[lo..hi] == Mid(Nil) && pi <= |pre|
    ensures BuildChild(pre, mid, pi, lo, hi) == Ok((Nil, pi)) && |Pre(Nil)| == 0
  {
    assert |mid[lo..hi]| == 0;
  }

  lemma {:induction false} BuildTraversals(pre: seq<word>, mid: seq<word>, pi: nat, lo: nat, hi: nat, t: Tree)
    requires lo <= hi <= |mid| && NoDup(mid) && mid[lo..hi] == Mid(t)
    requires pi + |Pre(t)| <= |pre| && pre[pi..pi + |Pre(t)|] == Pre(t)
    ensures BuildChild(pre, mid, pi, lo, hi) == Ok((t, pi + |Pre(t)|))
    decreases t
  {
    hide NoDup, Find, Leaves, Build, BuildChild, Pre, Mid;
    if t.Nil? {
      AbsentChild(pre, mid, pi, lo, hi);
    } else {
      ChildSlices(pre, mid, pi, lo, hi, t);
      var split := lo + |Mid(t.left)|;
      var pl := pi + 1 + |Pre(t.left)|;
      BuildTraversals(pre, mid, pi + 1, lo, split, t.left);
      BuildTraversals(pre, mid, pl, split + 1, hi, t.right);
      BuildStep(pre, mid, pi, lo, split, hi, t.left, pl, t.right, pl + |Pre(t.right)|);
    }
  }

  lemma JoinPre(s: seq<word>, a: nat, b: nat, c: nat)
    requires a < b <= c <= |s|
    ensures s[a..c] == [s[a]] + s[a + 1..b] + s[b..c]
  {
  }

  lemma JoinMid(s: seq<word>, lo: nat, k: nat, hi: nat)
    requires lo <= k < hi <= |s|
    ensures s[lo..hi] == s[lo..k] + [s[k]] + s[k + 1..hi]
  {
  }

  /** Any tree that is built has exactly the traversals it was built from. */
  lemma {:induction false} BuildExact(pre: seq<word>, mid: seq<word>, pi: nat, lo: nat, hi: nat)
    requires lo <= hi <= |mid| && pi <= |pre| && BuildChild(pre, mid, pi, lo, hi).Ok?
    ensures var (t, next) := BuildChild(pre, mid, pi, lo, hi).value;
            Mid(t) == mid[lo..hi] && Pre(t) == pre[pi..next]
    decreases hi - lo
  {
    if lo < hi {
      var split := Find(mid, lo, hi, pre[pi]).value;
      var pl := BuildChild(pre, mid, pi + 1, lo, split).value.1;
      var next := BuildChild(pre, mid, pl, split + 1, hi).value.1;
      BuildExact(pre, mid, pi + 1, lo, split);
      BuildExact(pre, mid, pl, split + 1, hi);
      JoinPre(pre, pi, pl, next);
      JoinMid(mid, lo, split, hi);
    }
  }

  predicate ByteLeaves(t: Tree) { forall s :: s in Leaves(t) ==> s < 256 }

  lemma {:induction false} ValidateExact(t: Tree)
    requires t.Node?
    ensures Validate(t).Ok? <==> Full(t) && ByteLeaves(t)
    decreases t
  {
    if IsLeaf(t) {
      assert t.symbol in Leaves(t);
    } else if t.left.Node? && t.right.Node? {
      ValidateExact(t.left);
      ValidateExact(t.right);
      assert forall s :: s in Leaves(t) <==> s in Leaves(t.left) || s in Leaves(t.right);
    }
  }

  /** The trees that can travel: full, without repeated symbols, leaves naming bytes. */
  predicate Sendable(t: Tree) { Full(t) && NoDup(Pre(t)) && ByteLeaves(t) }

  lemma AssembleTraversals(t: Tree)
    requires Sendable(t)
    ensures |Pre(t)| == |Mid(t)| && Assemble(Pre(t), Mid(t)) == Ok(t)
  {
    hide NoDup, Build, Validate, Pre, Mid, Size;
    TraversalSizes(t);
    DistinctSymbols(t);
    ValidateExact(t);
    assert Mid(t)[0..|Mid(t)|] == Mid(t) && Pre(t)[0..0 + |Pre(t)|] == Pre(t);
    NodeSize(t);
    BuildTraversals(Pre(t), Mid(t), 0, 0, |Mid(t)|, t);
  }

  lemma NodeSize(t: Tree)
    requires t.Node?
    ensures Size(t) > 0
  {
  }

  lemma AssembleExact(pre: seq<word>, mid: seq<word>)
    requires |pre| == |mid| && Assemble(pre, mid).Ok?
    ensures var t := Assemble(pre, mid).value;
            Sendable(t) && Pre(t) == pre && Mid(t) == mid
  {
    hide NoDup, Validate, Pre, Mid;
    BuildExact(pre, mid, 0, 0, |mid|);
    assert mid[0..|mid|] == mid && pre[0..|pre|] == pre;
    ValidateExact(Build(pre, mid, 0, 0, |mid|).value.0);
  }

  /** Reading accepts exactly the serialisations of sendable trees within the node limit, and
      returns the tree that was serialised. */
  lemma TreeWireExact(data: seq<byte>, limit: nat, t: Tree)
    ensures TreeOf(data, limit) == Ok(t) <==> Sendable(t) && Size(t) <= limit && data == Serialized(t)
  {
    if Sendable(t) && Size(t) <= limit && data == Serialized(t) {
      ReadSerialized(limit, t);
    }
    if TreeOf(data, limit) == Ok(t) {
      ReadExact(data, limit);
    }
  }

  lemma ReadSerialized(limit: nat, t: Tree)
    requires Sendable(t) && Size(t) <= limit
    ensures TreeOf(Serialized(t), limit) == Ok(t)
  {
    hide Assemble, Pre, Mid, Size, Sendable, PutWord, GetWord;
    SendableIsNode(t);
    NodeSize(t);
    TraversalSizes(t);
    WordsRoundTrip(Pre(t) + Mid(t));
    AssembleTraversals(t);
    var ws, n := Pre(t) + Mid(t), Size(t);
    assert ws[..n] == Pre(t) && ws[n..] == Mid(t);
  }

  lemma ReadExact(data: seq<byte>, limit: nat)
    requires TreeOf(data, limit).Ok?
    ensures var t := TreeOf(data, limit).value;
            Sendable(t) && Size(t) <= limit && data == Serialized(t)
  {
    hide Assemble, Pre, Mid, Size, Sendable, PutWord, GetWord;
    var ws, n := WordsOf(data), |data| / 4;
    WordsOfRoundTrip(data);
    AssembleExact(ws[..n], ws[n..]);
    assert Halves(data) == (ws[..n], ws[n..]);
    TraversalSizes(TreeOf(data, limit).value);
    assert ws == ws[..n] + ws[n..];
  }

  lemma SendableIsNode(t: Tree)
    requires Sendable(t)
    ensures t.Node?
  {
  }
}
