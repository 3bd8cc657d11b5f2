// The linked nodes of src/huffman_tree.cpp: heap of nodes, merge loop, code assignment.
module TreeNodes {
  import opened Bytes
  import opened HuffmanTree
  import Heap

  /** The string that GenerateCoding pushes to and pops from along its recursion. */
  class CodeBuffer {
    var s: string

    constructor ()
      ensures s == ""
    {
      s := "";
    }

    method PushBack(c: char)
      modifies this
      ensures s == old(s) + [c]
    {
      s := s + [c];
    }

    method PopBack()
      requires s != ""
      modifies this
      ensures s == old(s)[..|old(s)| - 1]
    {
      s := s[..|s| - 1];
    }
  }

  class TreeNode {
    const left_: TreeNode?
    const right_: TreeNode?
    const ch_: byte
    var weight_: nat
    var code_: string
    ghost const repr: set<TreeNode>  // this node and everything below it

    /** The nodes below form the tree t: same shape, same leaf bytes, nothing shared. */
    ghost predicate Is(t: Tree)
      decreases t
    {
      match t
      case Leaf(ch, _) => left_ == null && right_ == null && ch_ == ch && repr == {this}
      case Node(_, l, r) =>
        && left_ != null && right_ != null && left_.Is(l) && right_.Is(r)
        && this !in left_.repr && this !in right_.repr && left_.repr !! right_.repr
        && repr == {this} + left_.repr + right_.repr
    }

    /** Every leaf below carries prefix followed by its own path. */
    ghost predicate Coded(t: Tree, prefix: string)
      requires Is(t)
      reads this`code_, repr`code_
      decreases t
    {
      match t
      case Leaf(_, _) => code_ == prefix
      case Node(_, l, r) => left_.Coded(l, prefix + "0") && right_.Coded(r, prefix + "1")
    }

    constructor (ch: byte)
      ensures Is(Leaf(ch, 0)) && ch_ == ch && weight_ == 0
    {
      left_, right_, ch_, weight_, code_ := null, null, ch, 0, "";
      repr := {this};
    }

    constructor Root(l: TreeNode, r: TreeNode, ghost lt: Tree, ghost rt: Tree)
      requires l.Is(lt) && r.Is(rt) && l.weight_ == lt.w && r.weight_ == rt.w && l.repr !! r.repr
      ensures Is(Join(lt, rt)) && weight_ == Join(lt, rt).w && repr == {this} + l.repr + r.repr
    {
      left_, right_, ch_, weight_, code_ := l, r, 0, (l.weight_ + r.weight_) % U64, "";
      repr := {this} + l.repr + r.repr;
    }

    static method GenerateCoding(root: TreeNode?, ghost t: Tree, code: CodeBuffer)
      requires root != null ==> root.Is(t)
      modifies code, (if root == null then {} else root.repr)`code_
      ensures code.s == old(code.s)
      ensures root != null ==> root.Coded(t, code.s)
      decreases root != null, t
    {
      if root == null { return; }
      if root.left_ == null && root.right_ == null {
        root.code_ := code.s;
      }
      code.PushBack('0');
      GenerateCoding(root.left_, if t.Node? then t.left else t, code);
      code.PopBack();
      code.PushBack('1');
      GenerateCoding(root.right_, if t.Node? then t.right else t, code);
      code.PopBack();
    }
  }

  /** The priority queue of nodes, smallest weight on top. */
  class PriorityQueue {
    var c: seq<TreeNode>
    ghost var ts: seq<Tree>          // the trees the queued nodes stand for
    ghost var pool: set<TreeNode>    // all nodes of the queued trees

    ghost predicate Tracks()
      reads this, c`weight_
    {
      && |ts| == |c|
      && (forall i :: 0 <= i < |c| ==> c[i].Is(ts[i]) && c[i].weight_ == ts[i].w && c[i].repr <= pool)
      && (forall i, j :: 0 <= i < j < |c| ==> c[i].repr !! c[j].repr)
    }

    constructor ()
      ensures c == [] && ts == [] && pool == {} && Tracks()
    {
      c, ts, pool := [], [], {};
    }

    method Push(x: TreeNode, ghost t: Tree)
      requires Tracks() && x.Is(t) && x.weight_ == t.w && x.repr !! pool
      modifies this
      ensures Tracks() && pool == old(pool) + x.repr
      ensures ts == Heap.Push(old(ts), t)
    {
      c, ts, pool := c + [x], ts + [t], pool + x.repr;
      Rise(|c| - 1);
    }

    method Pop()
      requires Tracks() && |c| > 0
      modifies this
      ensures Tracks() && pool == old(pool) - old(c)[0].repr
      ensures ts == Heap.Pop(old(ts))
    {
      var n := |c|;
      pool := pool - c[0].repr;
      if n == 1 {
        c, ts := [], [];
      } else {
        c, ts := c[0 := c[n - 1]][..n - 1], ts[0 := ts[n - 1]][..n - 1];
        var i := SinkToLeaf();
        Rise(i);
      }
    }

    /** push_heap: the entry at position k moves up past heavier parents. */
    method Rise(k: nat)
      requires Tracks() && k < |c|
      modifies this
      ensures Tracks() && pool == old(pool)
      ensures ts == Heap.SiftUp(old(ts), k)
    {
      var i := k;
      while i > 0 && c[Heap.Parent(i)].weight_ > c[i].weight_
        invariant 0 <= i < |c| && Tracks() && pool == old(pool)
        invariant Heap.SiftUp(ts, i) == Heap.SiftUp(old(ts), k)
      {
        Exchange(i, Heap.Parent(i));
        i := Heap.Parent(i);
      }
    }

    /** adjust_heap: the top entry moves down to a leaf, along lighter children. */
    method SinkToLeaf() returns (i: nat)
      requires Tracks() && |c| > 0
      modifies this
      ensures Tracks() && pool == old(pool) && i < |c| == |old(c)|
      ensures (ts, i) == Heap.Sink(old(ts), 0)
    {
      i := 0;
      while 2 * i + 1 < |c|
        invariant i < |c| == |old(c)| && Tracks() && pool == old(pool)
        invariant Heap.Sink(ts, i) == Heap.Sink(old(ts), 0)
        decreases |c| - i
      {
        var child := if 2 * i + 2 < |c| && c[2 * i + 2].weight_ <= c[2 * i + 1].weight_ then 2 * i + 2 else 2 * i + 1;
        assert child == Heap.LighterChild(ts, i);
        Exchange(i, child);
        i := child;
      }
    }

    method Exchange(i: nat, j: nat)
      requires Tracks() && i < |c| && j < |c|
      modifies this
      ensures Tracks() && pool == old(pool) && |c| == |old(c)|
      ensures ts == Heap.SwapAt(old(ts), i, j)
    {
      c, ts := Heap.SwapAt(c, i, j), Heap.SwapAt(ts, i, j);
    }

    /** top() followed by pop(). */
    method TakeTop() returns (n: TreeNode, ghost t: Tree)
      requires Tracks() && |c| > 0
      modifies this
      ensures Tracks() && pool == old(pool) - n.repr
      ensures n.Is(t) && n.weight_ == t.w && n.repr <= old(pool) && t == old(ts)[0]
      ensures ts == Heap.Pop(old(ts))
    {
      n, t := c[0], ts[0];
      Pop();
    }

    /** One round of the merge loop: the two lightest trees become the children of a new root. */
    method MergeTwo()
      requires Tracks() && |c| > 1
      modifies this
      ensures Tracks() && fresh(pool - old(pool))
      ensures ts == Heap.MergeRound(old(ts))
    {
      var left, lt := TakeTop();
      var right, rt := TakeTop();
      var root := new TreeNode.Root(left, right, lt, rt);
      Push(root, Join(lt, rt));
    }

    method MergeAll() returns (root: TreeNode)
      requires Tracks() && |c| > 0
      modifies this
      ensures root.Is(Heap.MergeLoop(old(ts)))
      ensures fresh(root.repr - old(pool))
    {
      while |c| > 1
        invariant Tracks() && |c| > 0 && fresh(pool - old(pool))
        invariant Heap.MergeLoop(ts) == Heap.MergeLoop(old(ts))
      {
        MergeTwo();
      }
      root := c[0];
    }
  }

  /** The vector of 256 nodes holds exactly the counts in m. */
  ghost predicate Holds(counts: seq<TreeNode?>, m: map<byte, nat>)
    reads (set i | 0 <= i < |counts| && counts[i] != null :: counts[i])`weight_
  {
    |counts| == 256 &&
    forall i {:trigger counts[i]} :: 0 <= i < 256 ==>
      if i in m then
        && counts[i] != null && counts[i].Is(Leaf(i, m[i]))
        && counts[i].weight_ == m[i]
      else counts[i] == null
  }

  /** Queue the non-null counts in index order. */
  method Enqueue(counts: array<TreeNode?>, ghost m: map<byte, nat>) returns (heap: PriorityQueue)
    requires Holds(counts[..], m)
    ensures fresh(heap) && heap.Tracks() && heap.ts == Heap.PushAll([], Heap.LeavesOf(m, 256))
    ensures forall n :: n in heap.pool ==> n in counts[..]
  {
    heap := new PriorityQueue();
    for i := 0 to counts.Length
      invariant fresh(heap) && heap.Tracks() && heap.ts == Heap.PushAll([], Heap.LeavesOf(m, i))
      invariant forall n :: n in heap.pool ==> n in counts[..i] && n.ch_ < i
    {
      var node := counts[i];
      assert node == counts[..][i];
      if node != null {
        Heap.PushAllAppend([], Heap.LeavesOf(m, i), Leaf(node.ch_, node.weight_));
        heap.Push(node, Leaf(node.ch_, node.weight_));
      }
    }
  }

  method BuildHuffman(counts: array<TreeNode?>, ghost m: map<byte, nat>) returns (root: TreeNode?)
    requires Holds(counts[..], m)
    modifies (set n | n in counts[..] && n != null :: n)`code_
    ensures root == null <==> |Heap.LeavesOf(m, 256)| < 2
    ensures root != null ==>
      root.Is(Heap.Build(Heap.LeavesOf(m, 256))) && root.Coded(Heap.Build(Heap.LeavesOf(m, 256)), "")
  {
    var heap := Enqueue(counts, m);
    if |heap.c| < 2 {
      return null;
    }
    root := heap.MergeAll();
    var code := new CodeBuffer();
    TreeNode.GenerateCoding(root, Heap.Build(Heap.LeavesOf(m, 256)), code);
  }
}
