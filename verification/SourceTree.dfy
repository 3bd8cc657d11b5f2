// Every source tree, flattened, is a snapshot: legal distinct paths, parents first.
module SourceTrees {
  import opened Bytes
  import opened Headers
  import opened Archive
  import opened Target
  import opened Mirror

  /** p is path itself or something below it. */
  predicate Below(path: Path, p: Path) {
    p == path || (path + [SLASH] <= p)
  }

  ghost predicate AllBelow(es: seq<Entry>, path: Path) {
    forall i :: 0 <= i < |es| ==> Below(path, es[i].path)
  }

  /** Legal paths, and fields that fit; path lengths are bounded by the system. */
  ghost predicate EntriesOk(es: seq<Entry>) {
    forall i :: 0 <= i < |es| && |es[i].path| < U64 ==> EntryOk(es[i])
  }

  lemma BelowChild(path: Path, name: seq<byte>, p: Path)
    requires Below(path + [SLASH] + name, p)
    ensures path + [SLASH] <= p
  {
    assert path + [SLASH] <= path + [SLASH] + name;
    if p != path + [SLASH] + name {
      assert path + [SLASH] <= path + [SLASH] + name + [SLASH];
    }
  }

  lemma LetterAt(path: Path, name: seq<byte>, p: Path, k: nat)
    requires Below(path + [SLASH] + name, p) && k < |name|
    ensures |p| > |path| + 1 + k && p[|path| + 1 + k] == name[k]
  {
    assert (path + [SLASH] + name)[|path| + 1 + k] == name[k];
  }

  lemma SlashAfter(path: Path, name: seq<byte>, p: Path)
    requires Below(path + [SLASH] + name, p) && |p| > |path| + 1 + |name|
    ensures p[|path| + 1 + |name|] == SLASH
  {
    assert (path + [SLASH] + name + [SLASH])[|path| + 1 + |name|] == SLASH;
  }

  /** Sibling names are free of slashes, so their subtrees share no path. */
  lemma SiblingsApart(path: Path, a: seq<byte>, b: seq<byte>, p: Path)
    requires SLASH !in a && SLASH !in b && |a| <= |b|
    requires Below(path + [SLASH] + a, p) && Below(path + [SLASH] + b, p)
    ensures a == b
  {
    var n := |path| + 1;
    assert p[n..n + |b|] == b && p[n..n + |a|] == a;
    if |a| < |b| {
      LetterAt(path, b, p, |a|);
      SlashAfter(path, a, p);
      assert false;
    }
  }

  lemma {:induction false} NoSlashNoParent(name: seq<byte>)
    requires SLASH !in name
    ensures ParentOf(name) == (false, [])
  {
    if name != [] { NoSlashNoParent(name[..|name| - 1]); }
  }

  lemma {:induction false} ParentOfChild(path: Path, name: seq<byte>)
    requires SLASH !in name
    ensures ParentOf(path + [SLASH] + name) == (true, path)
    decreases |name|
  {
    var whole := path + [SLASH] + name;
    if name == [] {
      assert whole[..|whole| - 1] == path;
    } else {
      assert whole[..|whole| - 1] == path + [SLASH] + name[..|name| - 1];
      ParentOfChild(path, name[..|name| - 1]);
    }
  }

  lemma AllBelowConcat(a: seq<Entry>, b: seq<Entry>, path: Path)
    requires AllBelow(a, path) && AllBelow(b, path)
    ensures AllBelow(a + b, path)
  {
  }

  lemma EntriesConcat(a: seq<Entry>, b: seq<Entry>)
    requires EntriesOk(a) && EntriesOk(b)
    ensures EntriesOk(a + b)
  {
  }

  predicate Apart(a: seq<Entry>, b: seq<Entry>) {
    forall i, j :: 0 <= i < |a| && 0 <= j < |b| ==> a[i].path != b[j].path
  }

  lemma DistinctConcat(a: seq<Entry>, b: seq<Entry>)
    requires DistinctPaths(a) && DistinctPaths(b)
    requires Apart(a, b)
    ensures DistinctPaths(a + b)
  {
  }

  lemma ParentsConcat(a: seq<Entry>, b: seq<Entry>, roots: set<Path>)
    requires ParentsFirst(a, roots) && ParentsFirst(b, roots)
    ensures ParentsFirst(a + b, roots)
  {
    var c := a + b;
    forall i | 0 <= i < |c| ensures ParentBefore(c, i, roots) {
      if i < |a| {
        ParentStays(a, c, i, 0, i, roots);
      } else {
        ParentStays(b, c, i - |a|, |a|, i, roots);
      }
    }
  }

  /** Entry i of part is entry k of whole, which holds part from offset `at` on. */
  lemma ParentStays(part: seq<Entry>, whole: seq<Entry>, i: nat, at: nat, k: nat, roots: set<Path>)
    requires i < |part| && k == at + i && at + |part| <= |whole| && whole[at..at + |part|] == part
    requires ParentBefore(part, i, roots)
    ensures ParentBefore(whole, k, roots)
  {
    var p := ParentOf(part[i].path);
    assert whole[k] == whole[at..at + |part|][i];
    if p.0 && p.1 !in roots {
      var j :| 0 <= j < i && part[j].path == p.1 && part[j].body.IsDir?;
      assert whole[at + j] == whole[at..at + |part|][j];
    }
  }

  /** A directory in front of its contents supplies their parent. */
  lemma ParentsUnderDir(dir: Entry, es: seq<Entry>, roots: set<Path>)
    requires dir.body.IsDir? && ParentsFirst(es, {dir.path})
    requires ParentOf(dir.path).0 ==> ParentOf(dir.path).1 in roots
    ensures ParentsFirst([dir] + es, roots)
  {
    var all := [dir] + es;
    forall i | 0 <= i < |all| ensures ParentBefore(all, i, roots) {
      if i > 0 {
        assert ParentBefore(es, i - 1, {dir.path});
        var p := ParentOf(es[i - 1].path);
        if p.0 && p.1 != dir.path {
          var j :| 0 <= j < i - 1 && es[j].path == p.1 && es[j].body.IsDir?;
          assert all[j + 1].path == p.1;
        } else if p.0 {
          assert all[0].path == p.1;
        }
      }
    }
  }

  /** What holds of the entries of one node packed under `path`. */
  ghost predicate Fine(es: seq<Entry>, path: Path, roots: set<Path>) {
    AllBelow(es, path) && EntriesOk(es) && DistinctPaths(es) && ParentsFirst(es, roots)
  }

  /** ... and of the contents of the directory `path`. */
  ghost predicate FineInside(es: seq<Entry>, path: Path) {
    && (forall i :: 0 <= i < |es| ==> path + [SLASH] <= es[i].path)
    && EntriesOk(es) && DistinctPaths(es) && ParentsFirst(es, {path})
  }

  lemma {:induction false} FlattenFine(node: Node, path: Path, roots: set<Path>)
    requires TreeOk(node) && path != [] && 0 !in path && (ParentOf(path).0 ==> ParentOf(path).1 in roots)
    ensures Fine(Flatten(node, path), path, roots)
    decreases node, 0
  {
    match node
    case Dir(_, st, entries) =>
      FlattenAllFine(entries, path);
      DirFine(Entry(path, st, IsDir), FlattenAll(entries, path), path, roots);
    case _ =>
  }

  lemma DirFine(dir: Entry, inside: seq<Entry>, path: Path, roots: set<Path>)
    requires dir.path == path && dir.body.IsDir? && FineInside(inside, path) && (|path| < U64 ==> EntryOk(dir))
    requires ParentOf(path).0 ==> ParentOf(path).1 in roots
    ensures Fine([dir] + inside, path, roots)
  {
    EntriesConcat([dir], inside);
    AllBelowConcat([dir], inside, path);
    DistinctConcat([dir], inside);
    ParentsUnderDir(dir, inside, roots);
  }

  lemma {:induction false} FlattenAllFine(entries: seq<Node>, path: Path)
    requires AllOk(entries) && DistinctNames(entries) && 0 !in path
    ensures FineInside(FlattenAll(entries, path), path)
    decreases entries, 1
  {
    if entries != [] {
      var name := entries[0].name;
      var child := path + [SLASH] + name;
      ParentOfChild(path, name);
      FlattenFine(entries[0], child, {path});
      FlattenAllFine(entries[1..], path);
      var a, b := Flatten(entries[0], child), FlattenAll(entries[1..], path);
      forall i | 0 <= i < |a| ensures path + [SLASH] <= a[i].path { BelowChild(path, name, a[i].path); }
      ChildApart(entries, path);
      EntriesConcat(a, b);
      DistinctConcat(a, b);
      ParentsConcat(a, b, {path});
    }
  }

  /** Every entry inside a directory lies below one of its children. */
  lemma {:induction false} InsideOfSome(entries: seq<Node>, path: Path, i: nat) returns (c: nat)
    requires AllOk(entries) && 0 !in path && i < |FlattenAll(entries, path)|
    ensures c < |entries| && SLASH !in entries[c].name
    ensures Below(path + [SLASH] + entries[c].name, FlattenAll(entries, path)[i].path)
    decreases entries
  {
    var first := Flatten(entries[0], path + [SLASH] + entries[0].name);
    if i < |first| {
      AllBelowFlatten(entries[0], path + [SLASH] + entries[0].name);
      c := 0;
    } else {
      c := InsideOfSome(entries[1..], path, i - |first|);
      c := c + 1;
    }
  }

  lemma {:induction false} AllBelowFlatten(node: Node, path: Path)
    ensures AllBelow(Flatten(node, path), path)
    decreases node, 0
  {
    match node
    case Dir(_, st, entries) => InsideFlatten(entries, path);
    case _ =>
  }

  lemma {:induction false} InsideFlatten(entries: seq<Node>, path: Path)
    ensures forall i :: 0 <= i < |FlattenAll(entries, path)| ==> path + [SLASH] <= FlattenAll(entries, path)[i].path
    decreases entries, 1
  {
    if entries != [] {
      var name := entries[0].name;
      var a := Flatten(entries[0], path + [SLASH] + name);
      AllBelowFlatten(entries[0], path + [SLASH] + name);
      InsideFlatten(entries[1..], path);
      forall i | 0 <= i < |a| ensures path + [SLASH] <= a[i].path { BelowChild(path, name, a[i].path); }
    }
  }

  lemma ChildApart(entries: seq<Node>, path: Path)
    requires entries != [] && AllOk(entries) && DistinctNames(entries) && 0 !in path
    ensures Apart(Flatten(entries[0], path + [SLASH] + entries[0].name), FlattenAll(entries[1..], path))
  {
    var name := entries[0].name;
    var a := Flatten(entries[0], path + [SLASH] + name);
    var b := FlattenAll(entries[1..], path);
    AllBelowFlatten(entries[0], path + [SLASH] + name);
    forall i, j | 0 <= i < |a| && 0 <= j < |b| ensures a[i].path != b[j].path {
      var c := InsideOfSome(entries[1..], path, j);
      var other := entries[1..][c].name;
      assert entries[c + 1].name == other;
      if a[i].path == b[j].path {
        if |name| <= |other| {
          SiblingsApart(path, name, other, a[i].path);
        } else {
          SiblingsApart(path, other, name, a[i].path);
        }
      }
    }
  }

  /** Facts of every tree on disk: one file has one link count and one content, paths fit a length field. */
  ghost predicate RealTree(root: Node) {
    var es := Flatten(root, root.name);
    TreeOk(root) && ConsistentInodes(es) && forall i :: 0 <= i < |es| ==> |es[i].path| < U64
  }

  /** The root is packed under its own name, so a whole tree is a snapshot. */
  lemma TreeIsSnapshot(root: Node)
    requires RealTree(root)
    ensures Snapshot(Flatten(root, root.name))
  {
    NoSlashNoParent(root.name);
    FlattenFine(root, root.name, {});
  }
}
