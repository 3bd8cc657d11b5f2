// Sizes: what the counted weights say about the encoded text, and how long the compressed file is.
module HuffmanSize {
  import opened Bytes
  import opened Optimality
  import opened HuffmanTree
  import opened Heap
  import opened HuffmanCode

  // ---------- summing over the text, over the counts, over the leaves ----------

  function FirstTotal(data: seq<byte>, f: byte -> nat, n: nat): nat
    requires n <= |data|
  {
    if n == 0 then 0 else FirstTotal(data, f, n - 1) + f(data[n - 1])
  }

  function TextTotal(data: seq<byte>, f: byte -> nat): nat {
    FirstTotal(data, f, |data|)
  }

  function CountTotal(m: map<byte, nat>, f: byte -> nat, k: nat): nat
    requires k <= 256
  {
    if k == 0 then 0 else CountTotal(m, f, k - 1) + CountOf(m, k - 1) * f(k - 1)
  }

  function LeafTotal(F: seq<Tree>, f: byte -> nat): nat
    requires forall x :: x in F ==> x.Leaf?
  {
    if F == [] then 0 else LeafTotal(F[..|F| - 1], f) + F[|F| - 1].w * f(F[|F| - 1].ch)
  }

  lemma {:induction false} BumpTotal(m: map<byte, nat>, f: byte -> nat, b: byte, k: nat)
    requires k <= 256
    ensures CountTotal(m[b := CountOf(m, b) + 1], f, k) == CountTotal(m, f, k) + if b < k then f(b) else 0
  {
    if k > 0 {
      BumpTotal(m, f, b, k - 1);
      if b == k - 1 {
        assert (CountOf(m, b) + 1) * f(b) == CountOf(m, b) * f(b) + f(b);
      }
    }
  }

  lemma {:induction false} EmptyTotal(f: byte -> nat, k: nat)
    requires k <= 256
    ensures CountTotal(map[], f, k) == 0
  {
    if k > 0 { EmptyTotal(f, k - 1); }
  }

  lemma {:induction false} FreqTotal(data: seq<byte>, f: byte -> nat, n: nat)
    requires n <= |data|
    ensures CountTotal(Freq(data[..n]), f, 256) == FirstTotal(data, f, n)
  {
    if n == 0 {
      assert Freq(data[..0]) == map[];
      EmptyTotal(f, 256);
    } else {
      FreqTotal(data, f, n - 1);
      FreqAppend(data[..n - 1], data[n - 1]);
      assert data[..n - 1] + [data[n - 1]] == data[..n];
      BumpTotal(Freq(data[..n - 1]), f, data[n - 1], 256);
    }
  }

  lemma {:induction false} SameCountsTotal(m: map<byte, nat>, m': map<byte, nat>, f: byte -> nat, k: nat)
    requires k <= 256 && forall b: byte :: CountOf(m, b) == CountOf(m', b)
    ensures CountTotal(m, f, k) == CountTotal(m', f, k)
  {
    if k > 0 { SameCountsTotal(m, m', f, k - 1); }
  }

  lemma {:induction false} LeavesTotal(m: map<byte, nat>, f: byte -> nat, k: nat)
    requires k <= 256
    ensures LeafTotal(LeavesOf(m, k), f) == CountTotal(m, f, k)
  {
    if k > 0 {
      LeavesTotal(m, f, k - 1);
      if k - 1 in m {
        assert LeavesOf(m, k)[..|LeavesOf(m, k)| - 1] == LeavesOf(m, k - 1);
      }
    }
  }

  /** The dummy symbol weighs nothing, so leaf sums are text sums. */
  lemma TextIsLeaves(data: seq<byte>, f: byte -> nat)
    ensures LeafTotal(LeavesOf(Counts(data), 256), f) == TextTotal(data, f)
  {
    LeavesTotal(Counts(data), f, 256);
    DummyWeighsNothing(Freq(data));
    SameCountsTotal(Counts(data), Freq(data), f, 256);
    FreqTotal(data, f, |data|);
    assert data[..|data|] == data;
  }

  lemma DummyWeighsNothing(m: map<byte, nat>)
    ensures forall b: byte :: CountOf(WithDummy(m), b) == CountOf(m, b)
  {
    if |m| == 1 {
      OneKey(m);
      var ch :| m.Keys == {ch};
      assert (ch + 1) % 256 != ch;
      assert (ch + 1) % 256 !in m.Keys;
    }
  }

  lemma {:induction false} LeafTotalIsCost(F: seq<Tree>, f: byte -> nat, ls: seq<nat>)
    requires (forall x :: x in F ==> x.Leaf?) && |ls| == |F|
    requires forall i :: 0 <= i < |F| ==> ls[i] == f(F[i].ch)
    ensures CodeCost(Weights(F), ls) == LeafTotal(F, f)
    decreases |F|
  {
    if F != [] {
      var n := |F| - 1;
      LeafTotalIsCost(F[..n], f, ls[..n]);
      CodeCostConcat(Weights(F)[..n], ls[..n], [Weights(F)[n]], [ls[n]]);
      assert Weights(F) == Weights(F[..n]) + [F[n].w] && ls == ls[..n] + [ls[n]];
      assert CodeCost([F[n].w], [ls[n]]) == F[n].w * ls[n];
    }
  }

  function One(b: byte): nat {
    1
  }

  lemma {:induction false} FirstOnes(data: seq<byte>, n: nat)
    requires n <= |data|
    ensures FirstTotal(data, One, n) == n
  {
    if n > 0 { FirstOnes(data, n - 1); }
  }

  lemma {:induction false} OnesCost(ws: seq<nat>, ls: seq<nat>, l: nat)
    requires |ls| == |ws| && forall i :: 0 <= i < |ls| ==> ls[i] == l
    ensures CodeCost(ws, ls) == l * Total(ws)
  {
    if ws != [] {
      OnesCost(ws[1..], ls[1..], l);
      assert ws[0] * l + l * Total(ws[1..]) == l * (ws[0] + Total(ws[1..]));
    }
  }

  function Constant(n: nat, l: nat): (ls: seq<nat>)
    ensures |ls| == n && forall i :: 0 <= i < n ==> ls[i] == l
  {
    seq(n, _ => l)
  }

  /** The leaf weights add up to the number of bytes. */
  lemma WeightsTotal(data: seq<byte>)
    ensures Total(Weights(LeavesOf(Counts(data), 256))) == |data|
  {
    var F := LeavesOf(Counts(data), 256);
    var ones := Constant(|F|, 1);
    TextIsLeaves(data, One);
    FirstOnes(data, |data|);
    LeafTotalIsCost(F, One, ones);
    OnesCost(Weights(F), ones, 1);
  }

  // ---------- which leaves there are ----------

  lemma {:induction false} LeavesCount(m: map<byte, nat>, k: nat)
    requires k <= 256
    ensures |LeavesOf(m, k)| == |set b: byte | b in m && b < k| <= k
  {
    var S := set b: byte | b in m && b < k;
    if k == 0 {
      assert S == {};
    } else {
      var S' := set b: byte | b in m && b < k - 1;
      LeavesCount(m, k - 1);
      if k - 1 in m { assert S == S' + {k - 1}; } else { assert S == S'; }
    }
  }

  lemma {:induction false} LeavesContain(m: map<byte, nat>, k: nat, b: byte)
    requires b < k <= 256 && b in m
    ensures Leaf(b, m[b]) in LeavesOf(m, k)
  {
    if b < k - 1 { LeavesContain(m, k - 1, b); }
  }

  predicate DistinctBytes(F: seq<Tree>)
    requires forall x :: x in F ==> x.Leaf?
  {
    forall i, j :: 0 <= i < j < |F| ==> F[i].ch != F[j].ch
  }

  lemma {:induction false} LeavesDistinct(m: map<byte, nat>, k: nat)
    requires k <= 256
    ensures DistinctBytes(LeavesOf(m, k))
  {
    if k > 0 { LeavesDistinct(m, k - 1); }
  }

  lemma DistinctBag(F: seq<Tree>, G: seq<Tree>)
    requires (forall x :: x in F ==> x.Leaf?) && (forall x :: x in G ==> x.Leaf?)
    requires multiset(F) == multiset(G) && DistinctBytes(F)
    ensures DistinctBytes(G)
  {
    forall i, j | 0 <= i < j < |G| ensures G[i].ch != G[j].ch {
      OthersRemain(G, i);
      var a, b := Locate(F, G[i], G[j]);
    }
  }

  /** A non-empty text always yields at least two leaves, at most 256, and no weight overflows. */
  lemma TextForest(data: seq<byte>)
    requires 0 < |data| < U64
    ensures 2 <= |LeavesOf(Counts(data), 256)| <= 256
    ensures LeafForest(LeavesOf(Counts(data), 256)) && DistinctBytes(LeavesOf(Counts(data), 256))
  {
    WeightsTotal(data);
    LeavesDistinct(Counts(data), 256);
    var m := Counts(data);
    LeavesCount(m, 256);
    assert (set b: byte | b in m && b < 256) == m.Keys;
    AtLeastTwo(data);
  }

  lemma AtLeastTwo(data: seq<byte>)
    requires data != []
    ensures |Counts(data).Keys| >= 2
  {
    var f := Freq(data);
    assert data[0] in f.Keys;
    if |f| == 1 {
      OneKey(f);
      var ch :| f.Keys == {ch} && WithDummy(f) == f[(ch + 1) % 256 := 0];
      assert WithDummy(f).Keys == {ch, (ch + 1) % 256};
      assert (ch + 1) % 256 != ch;
    }
  }

  // ---------- the built tree and its code ----------

  /** Path codes of the leaves, in the order of Leaves. */
  function CodesOf(t: Tree, prefix: string): (cs: seq<string>)
    ensures |cs| == |Leaves(t)|
  {
    match t
    case Leaf(_, _) => [prefix]
    case Node(_, l, r) => CodesOf(l, prefix + "0") + CodesOf(r, prefix + "1")
  }

  lemma {:induction false} CodesExtend(t: Tree, prefix: string, c: string)
    requires c in CodesOf(t, prefix)
    ensures prefix <= c && |c| <= |prefix| + Height(t)
    ensures IsBinary(prefix) ==> IsBinary(c)
  {
    match t
    case Leaf(_, _) =>
    case Node(_, l, r) =>
      if c in CodesOf(l, prefix + "0") { CodesExtend(l, prefix + "0", c); } else { CodesExtend(r, prefix + "1", c); }
  }

  lemma {:induction false} PrefixFreeConcat(a: seq<string>, b: seq<string>)
    requires PrefixFree(a) && PrefixFree(b)
    requires forall x, y :: x in a && y in b ==> !(x <= y) && !(y <= x)
    ensures PrefixFree(a + b)
  {
    if a == [] {
      assert a + b == b;
    } else {
      assert (a + b)[1..] == a[1..] + b;
      assert forall x :: x in a[1..] ==> x in a;
      assert a[0] in a;
      PrefixFreeConcat(a[1..], b);
    }
  }

  /** Tree codes are prefix-free. */
  lemma {:induction false} TreeCodesPrefixFree(t: Tree, prefix: string)
    ensures PrefixFree(CodesOf(t, prefix))
  {
    match t
    case Leaf(_, _) =>
    case Node(_, l, r) =>
      TreeCodesPrefixFree(l, prefix + "0");
      TreeCodesPrefixFree(r, prefix + "1");
      var n := |prefix|;
      forall x, y | x in CodesOf(l, prefix + "0") && y in CodesOf(r, prefix + "1")
        ensures !(x <= y) && !(y <= x)
      {
        CodesExtend(l, prefix + "0", x);
        CodesExtend(r, prefix + "1", y);
        assert x[n] == (prefix + "0")[n] && y[n] == (prefix + "1")[n];
      }
      PrefixFreeConcat(CodesOf(l, prefix + "0"), CodesOf(r, prefix + "1"));
  }

  lemma LengthsConcat(a: seq<string>, b: seq<string>)
    ensures Lengths(a + b) == Lengths(a) + Lengths(b)
  {
  }

  lemma {:induction false} CodesLengths(t: Tree, prefix: string)
    ensures Lengths(CodesOf(t, prefix)) == Depths(t, |prefix|)
  {
    match t
    case Leaf(_, _) =>
    case Node(_, l, r) =>
      CodesLengths(l, prefix + "0");
      CodesLengths(r, prefix + "1");
      LengthsConcat(CodesOf(l, prefix + "0"), CodesOf(r, prefix + "1"));
  }

  /** The leaves of a node are those of its left child and then those of its right one. */
  lemma LeafOfNode(t: Tree, i: nat)
    requires t.Node? && i < |Leaves(t)|
    ensures |Leaves(t)| == |Leaves(t.left)| + |Leaves(t.right)|
    ensures var n := |Leaves(t.left)|; Leaves(t)[i] == if i < n then Leaves(t.left)[i] else Leaves(t.right)[i - n]
  {
  }

  lemma {:induction false} HasIsLeaf(t: Tree, ch: byte)
    ensures Has(t, ch) <==> exists i :: 0 <= i < |Leaves(t)| && Leaves(t)[i].ch == ch
  {
    match t
    case Leaf(c, _) => assert Leaves(t)[0].ch == c;
    case Node(_, l, r) =>
      HasIsLeaf(l, ch);
      HasIsLeaf(r, ch);
      var n := |Leaves(l)|;
      if Has(l, ch) {
        var i :| 0 <= i < n && Leaves(l)[i].ch == ch;
        LeafOfNode(t, i);
        assert Leaves(t)[i].ch == ch;
      } else if Has(r, ch) {
        var i :| 0 <= i < |Leaves(r)| && Leaves(r)[i].ch == ch;
        LeafOfNode(t, n + i);
        assert Leaves(t)[n + i].ch == ch;
      } else {
        forall i | 0 <= i < |Leaves(t)| ensures Leaves(t)[i].ch != ch {
          LeafOfNode(t, i);
        }
      }
  }

  lemma DistinctParts(F: seq<Tree>, G: seq<Tree>)
    requires (forall x :: x in F ==> x.Leaf?) && forall x :: x in G ==> x.Leaf?
    requires forall i, j :: 0 <= i < j < |F + G| ==> (F + G)[i].ch != (F + G)[j].ch
    ensures DistinctBytes(F) && DistinctBytes(G)
    ensures forall i, j :: 0 <= i < |F| && 0 <= j < |G| ==> F[i].ch != G[j].ch
  {
    var FG := F + G;
    forall i | 0 <= i < |F| ensures FG[i] == F[i] {}
    forall j | 0 <= j < |G| ensures FG[|F| + j] == G[j] {}
  }

  /** With distinct leaf bytes, the table holds every leaf's own path code. */
  lemma {:induction false} TableIsCodes(t: Tree, prefix: string, m: map<byte, string>, i: nat)
    requires DistinctBytes(Leaves(t)) && i < |Leaves(t)|
    ensures Leaves(t)[i].ch in Table(t, prefix, m)
    ensures Table(t, prefix, m)[Leaves(t)[i].ch] == CodesOf(t, prefix)[i]
  {
    match t
    case Leaf(_, _) =>
    case Node(_, l, r) =>
      var n, ch := |Leaves(l)|, Leaves(t)[i].ch;
      var m1 := Table(l, prefix + "0", m);
      DistinctParts(Leaves(l), Leaves(r));
      LeafOfNode(t, i);
      if i < n {
        TableIsCodes(l, prefix + "0", m, i);
        HasIsLeaf(r, ch);
        TableEntries(r, prefix + "1", m1, ch);
      } else {
        TableIsCodes(r, prefix + "1", m1, i - n);
      }
  }

  function CodeLength(table: map<byte, string>): byte -> nat {
    b => if b in table then |table[b]| else 0
  }

  /** Code lengths summed over the leaves, each weighted, give the weighted path length. */
  lemma TableCost(t: Tree)
    requires DistinctBytes(Leaves(t))
    ensures LeafTotal(Leaves(t), CodeLength(Table(t, "", map[]))) == Cost(t)
  {
    var f := CodeLength(Table(t, "", map[]));
    CodesLengths(t, "");
    forall i | 0 <= i < |Leaves(t)| ensures Depths(t, 0)[i] == f(Leaves(t)[i].ch) {
      TableIsCodes(t, "", map[], i);
      assert Lengths(CodesOf(t, ""))[i] == |CodesOf(t, "")[i]|;
    }
    LeafTotalIsCost(Leaves(t), f, Depths(t, 0));
    CostByDepth(t, 0);
  }

  lemma {:induction false} LeafTotalWithout(F: seq<Tree>, f: byte -> nat, i: nat)
    requires (forall x :: x in F ==> x.Leaf?) && i < |F|
    ensures forall x :: x in Without(F, i) ==> x.Leaf?
    ensures LeafTotal(F, f) == LeafTotal(Without(F, i), f) + F[i].w * f(F[i].ch)
    decreases |F|
  {
    var n := |F| - 1;
    if i == n {
      assert Without(F, i) == F[..n];
    } else {
      LeafTotalWithout(F[..n], f, i);
      assert Without(F, i)[..n - 1] == Without(F[..n], i);
      assert Without(F, i)[n - 1] == F[n];
    }
  }

  lemma {:induction false} LeafTotalOfBag(F: seq<Tree>, G: seq<Tree>, f: byte -> nat)
    requires (forall x :: x in F ==> x.Leaf?) && (forall x :: x in G ==> x.Leaf?)
    requires multiset(F) == multiset(G)
    ensures LeafTotal(F, f) == LeafTotal(G, f)
    decreases |F|
  {
    assert |multiset(F)| == |F| && |multiset(G)| == |G|;
    if F != [] {
      assert F[0] in multiset(G);
      var k :| 0 <= k < |G| && G[k] == F[0];
      WithoutMultiset(F, 0);
      WithoutMultiset(G, k);
      LeafTotalWithout(F, f, 0);
      LeafTotalWithout(G, f, k);
      LeafTotalOfBag(Without(F, 0), Without(G, k), f);
    }
  }

  lemma {:induction false} EncodedLength(table: map<byte, string>, data: seq<byte>, n: nat)
    requires Covers(table, data) && n <= |data|
    ensures |EncodeFirst(table, data, n)| == FirstTotal(data, CodeLength(table), n)
  {
    if n > 0 { EncodedLength(table, data, n - 1); }
  }

  /** Everything the compressor relies on about the tree of a non-empty text. */
  lemma TextTree(data: seq<byte>)
    requires 0 < |data| < U64
    ensures |LeavesOf(Counts(data), 256)| >= 2 && TreeOf(data).Node?
    ensures DistinctBytes(Leaves(TreeOf(data)))
    ensures multiset(Leaves(TreeOf(data))) == multiset(LeavesOf(Counts(data), 256))
    ensures forall b :: b in Counts(data) ==> Has(TreeOf(data), b)
    ensures Covers(CodeTable(data), data)
  {
    TextForest(data);
    var F := LeavesOf(Counts(data), 256);
    var t := TreeOf(data);
    BuildKeeps(F);
    DistinctBag(F, Leaves(t));
    forall b | b in Counts(data) ensures Has(t, b) {
      LeavesContain(Counts(data), 256, b);
      assert Leaf(b, Counts(data)[b]) in multiset(Leaves(t));
      HasIsLeaf(t, b);
    }
    forall b | b in data ensures b in CodeTable(data) {
      assert b in Freq(data);
      assert b in Counts(data);
      TablePaths(t, b);
    }
  }

  /** The number of code bits is the tree's weighted path length: the sum of its inner weights. */
  lemma BitsAreCost(data: seq<byte>)
    requires 0 < |data| < U64
    ensures |LeavesOf(Counts(data), 256)| > 0 && Covers(CodeTable(data), data)
    ensures |Encode(CodeTable(data), data)| == Cost(TreeOf(data))
    ensures |Encode(CodeTable(data), data)| == CountTotal(Counts(data), CodeLength(CodeTable(data)), 256)
  {
    TextTree(data);
    var t, f := TreeOf(data), CodeLength(CodeTable(data));
    EncodedLength(CodeTable(data), data, |data|);
    TextIsLeaves(data, f);
    LeavesTotal(Counts(data), f, 256);
    LeafTotalOfBag(LeavesOf(Counts(data), 256), Leaves(t), f);
    TableCost(t);
  }

  /** No text needs more than eight bits per byte. */
  lemma NeverLonger(data: seq<byte>)
    requires 0 < |data| < U64
    ensures |LeavesOf(Counts(data), 256)| > 0 && Covers(CodeTable(data), data)
    ensures |Encode(CodeTable(data), data)| <= 8 * |data|
  {
    var F := LeavesOf(Counts(data), 256);
    TextForest(data);
    BitsAreCost(data);
    BuildIsGreedy(F);
    WeightsTotal(data);
    var eights := Constant(|F|, 8);
    EightsFeasible(eights);
    OptimalAmongLengths(F, TreeOf(data), eights, 8);
    OnesCost(Weights(F), eights, 8);
  }

  lemma {:induction false} EightsKraft(ls: seq<nat>)
    requires forall i :: 0 <= i < |ls| ==> ls[i] == 8
    ensures Bounded(ls, 8) && Kraft(ls, 8) == |ls|
  {
    if ls != [] {
      EightsKraft(ls[1..]);
      assert Pow2(0) == 1;
    }
  }

  lemma EightsFeasible(ls: seq<nat>)
    requires (forall i :: 0 <= i < |ls| ==> ls[i] == 8) && |ls| <= 256
    ensures Feasible(ls, 8)
  {
    EightsKraft(ls);
    assert Pow2(4) == 16 && Pow2(8) == 16 * Pow2(4);
  }
}
