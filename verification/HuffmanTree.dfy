// Huffman trees as values, the greedy construction, and its optimality.
module HuffmanTree {
  import opened Bytes
  import opened Optimality

  /** `w` is the 64-bit `weight_` field; inner nodes keep the sum of their children. */
  datatype Tree = Leaf(ch: byte, w: nat) | Node(w: nat, left: Tree, right: Tree)

  function Join(l: Tree, r: Tree): Tree {
    Node((l.w + r.w) % U64, l, r)
  }

  function Leaves(t: Tree): (s: seq<Tree>)
    ensures |s| > 0 && forall x :: x in s ==> x.Leaf?
  {
    match t
    case Leaf(_, _) => [t]
    case Node(_, l, r) => Leaves(l) + Leaves(r)
  }

  /** Sum of the leaf weights, without wrap-around. */
  function Sum(t: Tree): nat {
    match t
    case Leaf(_, w) => w
    case Node(_, l, r) => Sum(l) + Sum(r)
  }

  /** Weighted path length, as the sum over all inner nodes of the weight below them. */
  function Cost(t: Tree): nat {
    match t
    case Leaf(_, _) => 0
    case Node(_, l, r) => Cost(l) + Cost(r) + Sum(l) + Sum(r)
  }

  /** No stored weight has wrapped. */
  predicate Exact(t: Tree) {
    match t
    case Leaf(_, _) => true
    case Node(w, l, r) => w == Sum(l) + Sum(r) && Exact(l) && Exact(r)
  }

  lemma {:induction false} ExactWeight(t: Tree)
    requires Exact(t)
    ensures t.w == Sum(t)
  {
  }

  // ---------- the greedy construction, for every tie-breaking order ----------

  ghost predicate Lightest(x: Tree, F: multiset<Tree>) {
    x in F && forall y :: y in F ==> x.w <= y.w
  }

  ghost predicate GreedyPick(F: multiset<Tree>, l: Tree, r: Tree) {
    Lightest(l, F) && Lightest(r, F - multiset{l})
  }

  /** t can come out of forest F by merging, again and again, some two lightest trees. */
  ghost predicate GreedyRun(F: multiset<Tree>, t: Tree)
    decreases |F|
  {
    if |F| <= 1 then F == multiset{t}
    else exists l, r :: GreedyPick(F, l, r) && GreedyRun(F - multiset{l} - multiset{r} + multiset{Join(l, r)}, t)
  }

  function Weights(F: seq<Tree>): (ws: seq<nat>)
    ensures |ws| == |F|
  {
    seq(|F|, i requires 0 <= i < |F| => F[i].w)
  }

  function Costs(F: seq<Tree>): (cs: seq<nat>)
    ensures |cs| == |F|
  {
    seq(|F|, i requires 0 <= i < |F| => Cost(F[i]))
  }

  ghost predicate AllExact(F: seq<Tree>) {
    (forall i :: 0 <= i < |F| ==> Exact(F[i])) && Total(Weights(F)) < U64
  }

  /** The forest after merging the trees at ia and ib. */
  function Merged(F: seq<Tree>, ia: nat, ib: nat): (G: seq<Tree>)
    requires ia < |F| && ib < |F|
    ensures |G| == |F| - 1
  {
    MergeInto(F, ia, ib, Join(F[ia], F[ib]))
  }

  lemma MergedWeights(F: seq<Tree>, ia: nat, ib: nat)
    requires ia < |F| && ib < |F| && ia != ib && Total(Weights(F)) < U64
    ensures Weights(Merged(F, ia, ib)) == MergeInto(Weights(F), ia, ib, F[ia].w + F[ib].w)
    ensures Total(Weights(Merged(F, ia, ib))) == Total(Weights(F))
    ensures Join(F[ia], F[ib]).w == F[ia].w + F[ib].w
  {
    PairBelowTotal(Weights(F), ia, ib);
    TotalMerge(Weights(F), ia, ib, F[ia].w + F[ib].w);
  }

  lemma MergedCosts(F: seq<Tree>, ia: nat, ib: nat)
    requires ia < |F| && ib < |F| && ia != ib && Exact(F[ia]) && Exact(F[ib])
    ensures Total(Costs(Merged(F, ia, ib))) == Total(Costs(F)) + F[ia].w + F[ib].w
  {
    ExactWeight(F[ia]);
    ExactWeight(F[ib]);
    var c := Cost(Join(F[ia], F[ib]));
    assert Costs(Merged(F, ia, ib)) == MergeInto(Costs(F), ia, ib, c);
    TotalMerge(Costs(F), ia, ib, c);
  }

  lemma MergedExact(F: seq<Tree>, ia: nat, ib: nat)
    requires ia < |F| && ib < |F| && ia != ib && AllExact(F)
    ensures AllExact(Merged(F, ia, ib))
  {
    MergedWeights(F, ia, ib);
    ExactWeight(F[ia]);
    ExactWeight(F[ib]);
  }

  lemma PairBelowTotal(s: seq<nat>, i: nat, j: nat)
    requires i < |s| && j < |s| && i != j
    ensures s[i] + s[j] <= Total(s)
  {
    TotalMerge(s, i, j, 0);
  }

  /** Positions ia and ib hold two lightest entries. */
  ghost predicate TwoLightest(ws: seq<nat>, ia: nat, ib: nat) {
    && ia < |ws| && ib < |ws| && ia != ib
    && forall k :: 0 <= k < |ws| && k != ia ==> ws[ia] <= ws[k] && ws[ib] <= ws[k]
  }

  /** The next step of a greedy run, on positions of the forest. */
  lemma NextMerge(F: seq<Tree>, t: Tree) returns (ia: nat, ib: nat)
    requires GreedyRun(multiset(F), t) && |F| > 1
    ensures TwoLightest(Weights(F), ia, ib)
    ensures GreedyRun(multiset(Merged(F, ia, ib)), t)
  {
    assert |multiset(F)| == |F|;
    var l, r :| GreedyPick(multiset(F), l, r) &&
                GreedyRun(multiset(F) - multiset{l} - multiset{r} + multiset{Join(l, r)}, t);
    ia, ib := Locate(F, l, r);
    OthersRemain(F, ia);
    PickedPositions(F, ia, ib);
    MergeMultiset(F, ia, ib, Join(l, r));
  }

  lemma PickedPositions(F: seq<Tree>, ia: nat, ib: nat)
    requires ia < |F| && ib < |F| && ia != ib && GreedyPick(multiset(F), F[ia], F[ib])
    requires forall k :: 0 <= k < |F| && k != ia ==> F[k] in multiset(F) - multiset{F[ia]}
    ensures TwoLightest(Weights(F), ia, ib)
  {
  }

  /** What one merge of the run does to weights, costs and code lengths together. */
  lemma MergeSaves(F: seq<Tree>, ls: seq<nat>, top: nat, i: nat, j: nat, ia: nat, ib: nat) returns (ls': seq<nat>)
    requires AllExact(F) && |ls| == |F| > 1 && Feasible(ls, top) && top > 0
    requires i < |ls| && j < |ls| && i != j && ls[i] == top && ls[j] == top
    requires TwoLightest(Weights(F), ia, ib)
    ensures |ls'| == |ls| - 1 && Feasible(ls', top)
    ensures AllExact(Merged(F, ia, ib))
    ensures Total(Costs(Merged(F, ia, ib))) + CodeCost(Weights(Merged(F, ia, ib)), ls')
            <= Total(Costs(F)) + CodeCost(Weights(F), ls)
  {
    ls' := MergeLengths(Weights(F), ls, top, i, j, ia, ib);
    MergedWeights(F, ia, ib);
    MergedCosts(F, ia, ib);
    MergedExact(F, ia, ib);
  }

  lemma LastTree(F: seq<Tree>, t: Tree)
    requires GreedyRun(multiset(F), t) && |F| == 1
    ensures F == [t]
  {
    assert |multiset(F)| == 1;
    assert t in multiset(F);
    assert F == [F[0]];
  }

  /** Whatever code lengths one tries, a greedy run costs no more. */
  lemma {:induction false} GreedyBeatsLengths(F: seq<Tree>, t: Tree, ls: seq<nat>, m: nat)
    requires GreedyRun(multiset(F), t) && AllExact(F)
    requires |ls| == |F| > 0 && Feasible(ls, m)
    ensures Cost(t) <= Total(Costs(F)) + CodeCost(Weights(F), ls)
    decreases |F|, Total(ls), 1
  {
    if |F| == 1 {
      LastTree(F, t);
    } else {
      var top := MaxLength(ls);
      KraftShrink(ls, top, m);
      if top == 0 { KraftOfZeros(ls); }
      var j :| 0 <= j < |ls| && ls[j] == top;
      if i :| 0 <= i < |ls| && i != j && ls[i] == top {
        GreedyBeatsTwoLongest(F, t, ls, top, i, j);
      } else {
        ShortenLonely(Weights(F), ls, top, j);
        GreedyBeatsLengths(F, t, ls[j := top - 1], top);
      }
    }
  }

  lemma GreedyBeatsTwoLongest(F: seq<Tree>, t: Tree, ls: seq<nat>, top: nat, i: nat, j: nat)
    requires GreedyRun(multiset(F), t) && AllExact(F)
    requires |ls| == |F| > 1 && Feasible(ls, top) && top > 0
    requires i < |ls| && j < |ls| && i != j && ls[i] == top && ls[j] == top
    ensures Cost(t) <= Total(Costs(F)) + CodeCost(Weights(F), ls)
    decreases |F|, Total(ls), 0
  {
    var ia, ib := NextMerge(F, t);
    var ls' := MergeSaves(F, ls, top, i, j, ia, ib);
    GreedyBeatsLengths(Merged(F, ia, ib), t, ls', top);
  }

  // ---------- what a run keeps ----------

  lemma {:induction false} GreedyExact(F: seq<Tree>, t: Tree)
    requires GreedyRun(multiset(F), t) && AllExact(F) && |F| > 0
    ensures Exact(t) && Sum(t) == Total(Weights(F)) == t.w
    decreases |F|
  {
    if |F| == 1 {
      LastTree(F, t);
      ExactWeight(t);
    } else {
      var ia, ib := NextMerge(F, t);
      MergedExact(F, ia, ib);
      MergedWeights(F, ia, ib);
      GreedyExact(Merged(F, ia, ib), t);
    }
  }

  /** In every inner node the left child, which was taken first, is not the heavier one. */
  predicate LighterLeft(t: Tree) {
    match t
    case Leaf(_, _) => true
    case Node(_, l, r) => l.w <= r.w && LighterLeft(l) && LighterLeft(r)
  }

  lemma {:induction false} GreedyLighterLeft(F: seq<Tree>, t: Tree)
    requires GreedyRun(multiset(F), t) && |F| > 0 && forall i :: 0 <= i < |F| ==> LighterLeft(F[i])
    ensures LighterLeft(t)
    decreases |F|
  {
    if |F| == 1 {
      LastTree(F, t);
    } else {
      var ia, ib := NextMerge(F, t);
      var G := Merged(F, ia, ib);
      assert LighterLeft(Join(F[ia], F[ib])) by { assert Weights(F)[ia] <= Weights(F)[ib]; }
      forall i | 0 <= i < |G| ensures LighterLeft(G[i]) { MergedEach(F, ia, ib, i); }
      GreedyLighterLeft(G, t);
    }
  }

  lemma MergedEach(F: seq<Tree>, ia: nat, ib: nat, i: nat)
    requires ia < |F| && ib < |F| && ia != ib && i < |Merged(F, ia, ib)|
    ensures Merged(F, ia, ib)[i] == Join(F[ia], F[ib]) || Merged(F, ia, ib)[i] in F
  {
    var all := F[ia := Join(F[ia], F[ib])];
    assert forall k :: 0 <= k < |all| ==> all[k] == Join(F[ia], F[ib]) || all[k] == F[k];
  }

  function LeafBag(F: seq<Tree>): multiset<Tree> {
    if F == [] then multiset{} else multiset(Leaves(F[0])) + LeafBag(F[1..])
  }

  lemma {:induction false} LeafBagWithout(F: seq<Tree>, i: nat)
    requires i < |F|
    ensures LeafBag(F) == LeafBag(Without(F, i)) + multiset(Leaves(F[i]))
  {
    if i == 0 {
      assert Without(F, 0) == F[1..];
    } else {
      assert Without(F, i)[1..] == Without(F[1..], i - 1);
      LeafBagWithout(F[1..], i - 1);
    }
  }

  lemma LeafBagUpdate(F: seq<Tree>, i: nat, x: Tree)
    requires i < |F|
    ensures LeafBag(F[i := x]) + multiset(Leaves(F[i])) == LeafBag(F) + multiset(Leaves(x))
  {
    LeafBagWithout(F, i);
    LeafBagWithout(F[i := x], i);
    assert Without(F[i := x], i) == Without(F, i);
  }

  lemma LeafBagMerged(F: seq<Tree>, ia: nat, ib: nat)
    requires ia < |F| && ib < |F| && ia != ib
    ensures LeafBag(Merged(F, ia, ib)) == LeafBag(F)
  {
    var x := Join(F[ia], F[ib]);
    var bag := LeafBag(F[ia := x]);
    LeafBagUpdate(F, ia, x);
    LeafBagWithout(F[ia := x], ib);
    Cancel(LeafBag(F), bag, LeafBag(Merged(F, ia, ib)), multiset(Leaves(F[ia])), multiset(Leaves(F[ib])));
  }

  lemma Cancel(A: multiset<Tree>, B: multiset<Tree>, C: multiset<Tree>, x: multiset<Tree>, y: multiset<Tree>)
    requires B + x == A + (x + y) && B == C + y
    ensures C == A
  {
    assert forall z {:trigger A[z]} :: A[z] + x[z] + y[z] == (B + x)[z];
  }

  /** The tree's leaves are exactly the leaves one started with. */
  lemma {:induction false} GreedyLeaves(F: seq<Tree>, t: Tree)
    requires GreedyRun(multiset(F), t) && |F| > 0
    ensures multiset(Leaves(t)) == LeafBag(F)
    decreases |F|
  {
    if |F| == 1 {
      LastTree(F, t);
    } else {
      var ia, ib := NextMerge(F, t);
      LeafBagMerged(F, ia, ib);
      GreedyLeaves(Merged(F, ia, ib), t);
    }
  }

  lemma {:induction false} LeafBagOfLeaves(F: seq<Tree>)
    requires forall x :: x in F ==> x.Leaf?
    ensures LeafBag(F) == multiset(F)
  {
    if F != [] {
      LeafBagOfLeaves(F[1..]);
      assert F == [F[0]] + F[1..];
    }
  }

  // ---------- depths: a full binary tree spends its Kraft budget exactly ----------

  /** The depth of each leaf of t, in the order of Leaves, when t's root sits at depth d. */
  function Depths(t: Tree, d: nat): (ls: seq<nat>)
    ensures |ls| == |Leaves(t)|
  {
    match t
    case Leaf(_, _) => [d]
    case Node(_, l, r) => Depths(l, d + 1) + Depths(r, d + 1)
  }

  function Height(t: Tree): nat {
    match t
    case Leaf(_, _) => 0
    case Node(_, l, r) => 1 + if Height(l) >= Height(r) then Height(l) else Height(r)
  }

  lemma {:induction false} HeightBelowLeaves(t: Tree)
    ensures Height(t) < |Leaves(t)|
  {
    match t
    case Leaf(_, _) =>
    case Node(_, l, r) => HeightBelowLeaves(l); HeightBelowLeaves(r);
  }

  lemma {:induction false} KraftConcat(a: seq<nat>, b: seq<nat>, m: nat)
    requires Bounded(a, m) && Bounded(b, m)
    ensures Bounded(a + b, m) && Kraft(a + b, m) == Kraft(a, m) + Kraft(b, m)
  {
    if a == [] {
      assert a + b == b;
    } else {
      assert (a + b)[1..] == a[1..] + b;
      KraftConcat(a[1..], b, m);
    }
  }

  lemma {:induction false} KraftOfTree(t: Tree, d: nat, m: nat)
    requires d + Height(t) <= m
    ensures Bounded(Depths(t, d), m) && Kraft(Depths(t, d), m) == Pow2(m - d)
  {
    match t
    case Leaf(_, _) =>
      assert Kraft([d], m) == Pow2(m - d) + Kraft([], m);
    case Node(_, l, r) =>
      KraftOfTree(l, d + 1, m);
      KraftOfTree(r, d + 1, m);
      KraftConcat(Depths(l, d + 1), Depths(r, d + 1), m);
      assert Depths(t, d) == Depths(l, d + 1) + Depths(r, d + 1);
      assert Pow2(m - d) == 2 * Pow2(m - (d + 1));
  }

  lemma {:induction false} CodeCostConcat(ws: seq<nat>, ls: seq<nat>, ws': seq<nat>, ls': seq<nat>)
    requires |ws| == |ls| && |ws'| == |ls'|
    ensures CodeCost(ws + ws', ls + ls') == CodeCost(ws, ls) + CodeCost(ws', ls')
  {
    if ws == [] {
      assert ws + ws' == ws' && ls + ls' == ls';
    } else {
      assert (ws + ws')[1..] == ws[1..] + ws' && (ls + ls')[1..] == ls[1..] + ls';
      CodeCostConcat(ws[1..], ls[1..], ws', ls');
    }
  }

  /** Summing over leaves or over inner nodes gives the same cost. */
  lemma {:induction false} CostByDepth(t: Tree, d: nat)
    ensures CodeCost(Weights(Leaves(t)), Depths(t, d)) == Cost(t) + d * Sum(t)
  {
    match t
    case Leaf(_, w) =>
      assert Weights([t]) == [w];
    case Node(_, l, r) =>
      CostByDepth(l, d + 1);
      CostByDepth(r, d + 1);
      assert Weights(Leaves(t)) == Weights(Leaves(l)) + Weights(Leaves(r));
      CodeCostConcat(Weights(Leaves(l)), Depths(l, d + 1), Weights(Leaves(r)), Depths(r, d + 1));
      assert (d + 1) * Sum(l) + (d + 1) * Sum(r) == Sum(l) + Sum(r) + d * (Sum(l) + Sum(r));
  }

  // ---------- optimality ----------

  ghost predicate LeafForest(F: seq<Tree>) {
    |F| > 0 && (forall x :: x in F ==> x.Leaf?) && Total(Weights(F)) < U64
  }

  lemma {:induction false} LeavesCostNothing(F: seq<Tree>)
    requires forall x :: x in F ==> x.Leaf?
    ensures Total(Costs(F)) == 0
  {
    if F != [] {
      assert Costs(F)[1..] == Costs(F[1..]);
      LeavesCostNothing(F[1..]);
    }
  }

  lemma LeavesExact(F: seq<Tree>)
    requires LeafForest(F)
    ensures AllExact(F)
  {
    forall i | 0 <= i < |F| ensures Exact(F[i]) {
      assert F[i] in F;
    }
  }

  lemma OptimalAmongLengths(F: seq<Tree>, t: Tree, ls: seq<nat>, m: nat)
    requires LeafForest(F) && GreedyRun(multiset(F), t)
    requires |ls| == |F| && Feasible(ls, m)
    ensures Cost(t) <= CodeCost(Weights(F), ls)
  {
    LeavesExact(F);
    LeavesCostNothing(F);
    GreedyBeatsLengths(F, t, ls, m);
  }

  /** No prefix-free code, listed in the order of F's symbols, is shorter on the text than t's code. */
  lemma OptimalAmongPrefixCodes(F: seq<Tree>, t: Tree, codes: seq<string>)
    requires LeafForest(F) && GreedyRun(multiset(F), t)
    requires |codes| == |F| && PrefixFree(codes) && Binary(codes)
    ensures Cost(t) <= CodeCost(Weights(F), Lengths(codes))
  {
    var m := MaxLength(Lengths(codes));
    PrefixFreeFeasible(codes, m);
    OptimalAmongLengths(F, t, Lengths(codes), m);
  }

  lemma SameBagForest(F: seq<Tree>, G: seq<Tree>)
    requires LeafForest(F) && multiset(F) == multiset(G)
    ensures LeafForest(G)
  {
    TotalWeightsOfBag(F, G);
    assert |multiset(G)| == |G| && |multiset(F)| == |F|;
    forall x | x in G ensures x.Leaf? {
      assert x in multiset(F);
    }
  }

  lemma TreeAsLengths(u: Tree)
    ensures Feasible(Depths(u, 0), Height(u))
    ensures CodeCost(Weights(Leaves(u)), Depths(u, 0)) == Cost(u)
  {
    KraftOfTree(u, 0, Height(u));
    CostByDepth(u, 0);
  }

  /** No full binary tree over the same leaves has a smaller weighted path length. */
  lemma OptimalAmongTrees(F: seq<Tree>, t: Tree, u: Tree)
    requires LeafForest(F) && GreedyRun(multiset(F), t)
    requires multiset(Leaves(u)) == multiset(F)
    ensures Cost(t) <= Cost(u)
  {
    var G := Leaves(u);
    SameBagForest(F, G);
    TreeAsLengths(u);
    OptimalAmongLengths(G, t, Depths(u, 0), Height(u));
  }

  lemma WeightWithout(F: seq<Tree>, k: nat)
    requires k < |F|
    ensures Total(Weights(F)) == F[k].w + Total(Weights(Without(F, k)))
  {
    assert Weights(Without(F, k)) == Without(Weights(F), k);
    TotalWithout(Weights(F), k);
  }

  lemma WithoutSame(F: seq<Tree>, i: nat, G: seq<Tree>, k: nat)
    requires i < |F| && k < |G| && F[i] == G[k] && multiset(F) == multiset(G)
    ensures multiset(Without(F, i)) == multiset(Without(G, k))
  {
    WithoutMultiset(F, i);
    WithoutMultiset(G, k);
  }

  lemma {:induction false} TotalWeightsOfBag(F: seq<Tree>, G: seq<Tree>)
    requires multiset(F) == multiset(G)
    ensures Total(Weights(F)) == Total(Weights(G))
  {
    if F == [] {
      assert |multiset(G)| == 0;
    } else {
      var x := F[0];
      assert F[0] in multiset(G);
      var k :| 0 <= k < |G| && G[k] == x;
      WithoutSame(F, 0, G, k);
      TotalWeightsOfBag(Without(F, 0), Without(G, k));
      WeightWithout(F, 0);
      WeightWithout(G, k);
    }
  }
}
