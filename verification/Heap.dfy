// The array heap behind std::priority_queue, on values: root first, lightest on top.
// The order among equal weights is the one GNU's push_heap and pop_heap produce.
module Heap {
  import opened HuffmanTree
  import opened Optimality
  import opened Bytes

  function Parent(i: int): int
    requires i > 0
  {
    (i - 1) / 2
  }

  function SwapAt<T>(s: seq<T>, i: nat, j: nat): (r: seq<T>)
    requires i < |s| && j < |s|
    ensures |r| == |s|
  {
    s[i := s[j]][j := s[i]]
  }

  lemma SwapMultiset<T>(s: seq<T>, i: nat, j: nat)
    requires i < |s| && j < |s|
    ensures multiset(SwapAt(s, i, j)) == multiset(s)
  {
  }

  /** Let the entry at i rise while its parent is heavier. */
  function SiftUp(s: seq<Tree>, i: nat): (r: seq<Tree>)
    requires i < |s|
    ensures |r| == |s|
    decreases i
  {
    if i > 0 && s[Parent(i)].w > s[i].w then SiftUp(SwapAt(s, i, Parent(i)), Parent(i)) else s
  }

  /** The lighter child of i; the right one when both weigh the same. */
  function LighterChild(s: seq<Tree>, i: nat): (c: nat)
    requires 2 * i + 1 < |s|
    ensures i < c < |s| && Parent(c) == i
  {
    if 2 * i + 2 < |s| && s[2 * i + 2].w <= s[2 * i + 1].w then 2 * i + 2 else 2 * i + 1
  }

  /** Let the entry at i sink to a leaf along lighter children. */
  function Sink(s: seq<Tree>, i: nat): (r: (seq<Tree>, nat))
    requires i < |s|
    ensures |r.0| == |s| && r.1 < |s|
    decreases |s| - i
  {
    if 2 * i + 1 < |s| then Sink(SwapAt(s, i, LighterChild(s, i)), LighterChild(s, i)) else (s, i)
  }

  function Push(s: seq<Tree>, x: Tree): (r: seq<Tree>)
    ensures |r| == |s| + 1
  {
    SiftUp(s + [x], |s|)
  }

  function Pop(s: seq<Tree>): (r: seq<Tree>)
    requires |s| > 0
    ensures |r| == |s| - 1
  {
    if |s| == 1 then [] else
      var sunk := Sink(s[0 := s[|s| - 1]][..|s| - 1], 0);
      SiftUp(sunk.0, sunk.1)
  }

  predicate IsHeap(s: seq<Tree>) {
    forall j :: 0 < j < |s| ==> s[Parent(j)].w <= s[j].w
  }

  /** A heap apart from the links of entry i, whose children still fit under i's parent. */
  ghost predicate HeapExcept(s: seq<Tree>, i: nat) {
    && (forall j :: 0 < j < |s| && j != i && Parent(j) != i ==> s[Parent(j)].w <= s[j].w)
    && (i > 0 ==> forall j :: 0 < j < |s| && Parent(j) == i ==> i < |s| && s[Parent(i)].w <= s[j].w)
  }

  ghost predicate AboveChildren(s: seq<Tree>, i: nat) {
    i < |s| && forall j :: 0 < j < |s| && Parent(j) == i ==> s[i].w <= s[j].w
  }

  lemma {:induction false} SiftUpHeap(s: seq<Tree>, i: nat)
    requires HeapExcept(s, i) && AboveChildren(s, i)
    ensures IsHeap(SiftUp(s, i)) && multiset(SiftUp(s, i)) == multiset(s)
    decreases i
  {
    if i > 0 && s[Parent(i)].w > s[i].w {
      SwapMultiset(s, i, Parent(i));
      SiftUpHeap(SwapAt(s, i, Parent(i)), Parent(i));
    }
  }

  lemma {:induction false} SinkHeap(s: seq<Tree>, i: nat)
    requires HeapExcept(s, i) && i < |s|
    ensures var (r, k) := Sink(s, i); HeapExcept(r, k) && AboveChildren(r, k) && multiset(r) == multiset(s)
    decreases |s| - i
  {
    if 2 * i + 1 < |s| {
      var c := LighterChild(s, i);
      SwapMultiset(s, i, c);
      SinkHeap(SwapAt(s, i, c), c);
    }
  }

  lemma PushHeap(s: seq<Tree>, x: Tree)
    requires IsHeap(s)
    ensures IsHeap(Push(s, x)) && multiset(Push(s, x)) == multiset(s) + multiset{x}
  {
    SiftUpHeap(s + [x], |s|);
  }

  lemma PopHeap(s: seq<Tree>)
    requires IsHeap(s) && |s| > 0
    ensures IsHeap(Pop(s)) && multiset(Pop(s)) == multiset(s) - multiset{s[0]}
  {
    var n := |s|;
    if n > 1 {
      var t := s[0 := s[n - 1]][..n - 1];
      assert t == [s[n - 1]] + s[1..n - 1];
      assert s == [s[0]] + s[1..n - 1] + [s[n - 1]];
      assert multiset(t) == multiset(s) - multiset{s[0]};
      SinkHeap(t, 0);
      var (r, k) := Sink(t, 0);
      SiftUpHeap(r, k);
    } else {
      assert s == [s[0]];
    }
  }

  lemma {:induction false} TopLightest(s: seq<Tree>, j: nat)
    requires IsHeap(s) && j < |s|
    ensures s[0].w <= s[j].w
    decreases j
  {
    if j > 0 { TopLightest(s, Parent(j)); }
  }

  lemma TopIsLightest(s: seq<Tree>)
    requires IsHeap(s) && |s| > 0
    ensures Lightest(s[0], multiset(s))
  {
    forall y | y in multiset(s) ensures s[0].w <= y.w {
      var j :| 0 <= j < |s| && s[j] == y;
      TopLightest(s, j);
    }
  }

  // ---------- the tree the heap builds ----------

  function PushAll(s: seq<Tree>, xs: seq<Tree>): (r: seq<Tree>)
    ensures |r| == |s| + |xs|
    decreases |xs|
  {
    if xs == [] then s else PushAll(Push(s, xs[0]), xs[1..])
  }

  /** One round of the merge loop. */
  function MergeRound(s: seq<Tree>): (r: seq<Tree>)
    requires |s| > 1
    ensures |r| == |s| - 1
  {
    var rest := Pop(s);
    Push(Pop(rest), Join(s[0], rest[0]))
  }

  function MergeLoop(s: seq<Tree>): Tree
    requires |s| > 0
    decreases |s|
  {
    if |s| == 1 then s[0] else MergeLoop(MergeRound(s))
  }

  /** The Huffman tree of two or more leaves. */
  function Build(leaves: seq<Tree>): Tree
    requires |leaves| > 0
  {
    MergeLoop(PushAll([], leaves))
  }

  lemma {:induction false} PushAllHeap(s: seq<Tree>, xs: seq<Tree>)
    requires IsHeap(s)
    ensures IsHeap(PushAll(s, xs)) && multiset(PushAll(s, xs)) == multiset(s) + multiset(xs)
    decreases |xs|
  {
    if xs != [] {
      PushHeap(s, xs[0]);
      PushAllHeap(Push(s, xs[0]), xs[1..]);
      assert xs == [xs[0]] + xs[1..];
    }
  }

  lemma MergeRoundGreedy(s: seq<Tree>)
    requires IsHeap(s) && |s| > 1
    ensures IsHeap(MergeRound(s))
    ensures GreedyPick(multiset(s), s[0], Pop(s)[0])
    ensures multiset(MergeRound(s)) ==
            multiset(s) - multiset{s[0]} - multiset{Pop(s)[0]} + multiset{Join(s[0], Pop(s)[0])}
  {
    TopIsLightest(s);
    PopHeap(s);
    TopIsLightest(Pop(s));
    PopHeap(Pop(s));
    PushHeap(Pop(Pop(s)), Join(s[0], Pop(s)[0]));
  }

  lemma {:induction false} MergeLoopGreedy(s: seq<Tree>)
    requires IsHeap(s) && |s| > 0
    ensures GreedyRun(multiset(s), MergeLoop(s))
    decreases |s|
  {
    assert |multiset(s)| == |s|;
    if |s| == 1 {
      assert s == [s[0]];
    } else {
      MergeRoundGreedy(s);
      MergeLoopGreedy(MergeRound(s));
    }
  }

  /** The heap's order is one of the greedy orders, so everything proved for them holds of Build. */
  lemma BuildIsGreedy(leaves: seq<Tree>)
    requires |leaves| > 0
    ensures GreedyRun(multiset(leaves), Build(leaves))
  {
    PushAllHeap([], leaves);
    assert multiset(PushAll([], leaves)) == multiset(leaves);
    MergeLoopGreedy(PushAll([], leaves));
  }

  /** The lighter of the two trees merged goes to the left, throughout the tree. */
  lemma BuildLighterLeft(leaves: seq<Tree>)
    requires LeafForest(leaves)
    ensures LighterLeft(Build(leaves))
  {
    BuildIsGreedy(leaves);
    GreedyLighterLeft(leaves, Build(leaves));
  }

  /** How ties are broken: of three equal weights the first two merge, and the third becomes the left child. */
  lemma BuildOfTies(a: Tree, b: Tree, c: Tree)
    requires a.w == b.w == c.w && 0 < 2 * a.w < U64
    ensures Build([a, b, c]) == Join(c, Join(a, b))
  {
    PushTies(a, b, c);
    assert [a, b, c][1..] == [b, c] && [b, c][1..] == [c] && [c][1..] == [];
    assert PushAll([a, b, c], []) == [a, b, c];
    assert PushAll([a, b], [c]) == [a, b, c];
    assert PushAll([a], [b, c]) == [a, b, c];
    assert PushAll([], [a, b, c]) == [a, b, c];
    PopTies(a, b, c);
    MergeTies(a, b, c);
    assert MergeLoop([Join(c, Join(a, b))]) == Join(c, Join(a, b));
    assert MergeLoop([c, Join(a, b)]) == Join(c, Join(a, b));
  }

  lemma PushTies(a: Tree, b: Tree, c: Tree)
    requires a.w == b.w == c.w
    ensures Push([], a) == [a] && Push([a], b) == [a, b] && Push([a, b], c) == [a, b, c]
  {
    assert [] + [a] == [a] && [a] + [b] == [a, b] && [a, b] + [c] == [a, b, c];
  }

  lemma PopTies(a: Tree, b: Tree, c: Tree)
    requires a.w == b.w == c.w
    ensures Pop([a, b, c]) == [b, c] && Pop([b, c]) == [c]
  {
    assert [a, b, c][0 := c][..2] == [c, b];
    assert LighterChild([c, b], 0) == 1 && SwapAt([c, b], 0, 1) == [b, c];
    assert Sink([b, c], 1) == ([b, c], 1);
    assert Sink([c, b], 0) == ([b, c], 1);
    assert SiftUp([b, c], 1) == [b, c];
    assert [b, c][0 := c][..1] == [c];
    assert Sink([c], 0) == ([c], 0) && SiftUp([c], 0) == [c];
  }

  lemma MergeTies(a: Tree, b: Tree, c: Tree)
    requires a.w == b.w == c.w && 0 < 2 * a.w < U64
    ensures MergeRound([a, b, c]) == [c, Join(a, b)] && MergeRound([c, Join(a, b)]) == [Join(c, Join(a, b))]
  {
    var ab := Join(a, b);
    PopTies(a, b, c);
    assert [c] + [ab] == [c, ab] && SiftUp([c, ab], 1) == [c, ab];
    assert [c, ab][0 := ab][..1] == [ab] && Sink([ab], 0) == ([ab], 0) && SiftUp([ab], 0) == [ab];
    assert Pop([c, ab]) == [ab] && Pop([ab]) == [];
    assert [] + [Join(c, ab)] == [Join(c, ab)] && SiftUp([Join(c, ab)], 0) == [Join(c, ab)];
  }

  lemma BuildOptimal(leaves: seq<Tree>, u: Tree)
    requires LeafForest(leaves) && multiset(Leaves(u)) == multiset(leaves)
    ensures Cost(Build(leaves)) <= Cost(u)
  {
    BuildIsGreedy(leaves);
    OptimalAmongTrees(leaves, Build(leaves), u);
  }

  lemma BuildKeeps(leaves: seq<Tree>)
    requires LeafForest(leaves)
    ensures multiset(Leaves(Build(leaves))) == multiset(leaves)
    ensures |Leaves(Build(leaves))| == |leaves|
    ensures Exact(Build(leaves)) && Sum(Build(leaves)) == Total(Weights(leaves))
  {
    BuildIsGreedy(leaves);
    GreedyLeaves(leaves, Build(leaves));
    LeafBagOfLeaves(leaves);
    GreedyExact(leaves, Build(leaves));
    assert |multiset(leaves)| == |leaves| && |multiset(Leaves(Build(leaves)))| == |Leaves(Build(leaves))|;
  }

  lemma {:induction false} PushAllAppend(s: seq<Tree>, xs: seq<Tree>, x: Tree)
    ensures PushAll(s, xs + [x]) == Push(PushAll(s, xs), x)
    decreases |xs|
  {
    if xs == [] {
      assert xs + [x] == [x];
    } else {
      assert (xs + [x])[1..] == xs[1..] + [x];
      PushAllAppend(Push(s, xs[0]), xs[1..], x);
    }
  }

  /** One leaf per counted byte below k, in increasing byte order. */
  function LeavesOf(m: map<byte, nat>, k: nat): (s: seq<Tree>)
    requires k <= 256
    ensures forall x :: x in s ==> x.Leaf? && x.ch in m && m[x.ch] == x.w && x.ch < k
  {
    if k == 0 then []
    else if k - 1 in m then LeavesOf(m, k - 1) + [Leaf(k - 1, m[k - 1])]
    else LeavesOf(m, k - 1)
  }
}
