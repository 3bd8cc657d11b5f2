// Where the nodes of a source tree sit, and when the target directory holds the tree again.
module Recreation {
  import opened Bytes
  import opened Headers
  import opened Archive
  import opened Target
  import opened Mirror
  import opened SourceTrees

  // ---------- nodes and their paths ----------

  /** In the tree `root`, which has the path `path`, node n sits at p. */
  ghost predicate Sits(root: Node, path: Path, n: Node, p: Path)
    decreases root
  {
    || (n == root && p == path)
    || (root.Dir? && exists i :: 0 <= i < |root.entries|
                                 && Sits(root.entries[i], path + [SLASH] + root.entries[i].name, n, p))
  }

  /** What the archive should say of node n at p. */
  function EntryOf(n: Node, p: Path): Entry
    requires !n.Special?
  {
    Entry(p, n.st,
          match n
          case Dir(_, _, _) => IsDir
          case Reg(_, _, content) => IsReg(content)
          case Fifo(_, _) => IsFifo
          case Symlink(_, _, target) => IsLink(target))
  }

  /** Where the entries of child i begin among those of its directory. */
  function Offset(entries: seq<Node>, path: Path, i: nat): nat
    requires i <= |entries|
  {
    if i == 0 then 0
    else |Flatten(entries[0], path + [SLASH] + entries[0].name)| + Offset(entries[1..], path, i - 1)
  }

  lemma {:induction false} ChildSlice(entries: seq<Node>, path: Path, i: nat)
    requires i < |entries|
    ensures var es, at := Flatten(entries[i], path + [SLASH] + entries[i].name), Offset(entries, path, i);
      && at + |es| == Offset(entries, path, i + 1) <= |FlattenAll(entries, path)|
      && FlattenAll(entries, path)[at..at + |es|] == es
  {
    var first, rest := Flatten(entries[0], path + [SLASH] + entries[0].name), FlattenAll(entries[1..], path);
    if i == 0 {
      assert (first + rest)[..|first|] == first;
    } else {
      ChildSlice(entries[1..], path, i - 1);
      var es, at := Flatten(entries[i], path + [SLASH] + entries[i].name), Offset(entries[1..], path, i - 1);
      SliceBehind(first, rest, at, at + |es|);
    }
  }

  lemma {:induction false} OffsetsRise(entries: seq<Node>, path: Path, i: nat, j: nat)
    requires i <= j <= |entries|
    ensures Offset(entries, path, i) <= Offset(entries, path, j)
    decreases j - i
  {
    if i < j {
      ChildSlice(entries, path, i);
      OffsetsRise(entries, path, i + 1, j);
    }
  }

  /** Every entry of a directory's contents is one of some child's. */
  lemma {:induction false} ChildAt(entries: seq<Node>, path: Path, k: nat) returns (c: nat)
    requires k < |FlattenAll(entries, path)|
    ensures c < |entries| && Offset(entries, path, c) <= k < Offset(entries, path, c + 1)
  {
    var first := Flatten(entries[0], path + [SLASH] + entries[0].name);
    if k < |first| {
      c := 0;
      assert Offset(entries[1..], path, 0) == 0;
    } else {
      c := ChildAt(entries[1..], path, k - |first|);
      c := c + 1;
    }
  }

  lemma EntryOfChild(root: Node, path: Path, i: nat, k: nat)
    requires root.Dir? && i < |root.entries|
    requires k < |Flatten(root.entries[i], path + [SLASH] + root.entries[i].name)|
    ensures var at := 1 + Offset(root.entries, path, i) + k;
      at < |Flatten(root, path)|
      && Flatten(root, path)[at] == Flatten(root.entries[i], path + [SLASH] + root.entries[i].name)[k]
  {
    ChildSlice(root.entries, path, i);
    var es := Flatten(root.entries[i], path + [SLASH] + root.entries[i].name);
    var at := Offset(root.entries, path, i);
    assert FlattenAll(root.entries, path)[at..at + |es|][k] == FlattenAll(root.entries, path)[at + k];
  }

  // ---------- every node is listed, and only nodes are ----------

  lemma {:induction false} Listed(root: Node, path: Path, n: Node, p: Path) returns (k: nat)
    requires Sits(root, path, n, p) && !n.Special?
    ensures k < |Flatten(root, path)| && Flatten(root, path)[k] == EntryOf(n, p)
    decreases root
  {
    if n == root && p == path {
      k := 0;
    } else {
      var i :| 0 <= i < |root.entries| && Sits(root.entries[i], path + [SLASH] + root.entries[i].name, n, p);
      k := Listed(root.entries[i], path + [SLASH] + root.entries[i].name, n, p);
      EntryOfChild(root, path, i, k);
      k := 1 + Offset(root.entries, path, i) + k;
    }
  }

  lemma {:induction false} Placed(root: Node, path: Path, k: nat) returns (n: Node)
    requires k < |Flatten(root, path)|
    ensures var e := Flatten(root, path)[k]; Sits(root, path, n, e.path) && !n.Special? && e == EntryOf(n, e.path)
    decreases root
  {
    if root.Dir? && k > 0 {
      var i := ChildAt(root.entries, path, k - 1);
      ChildSlice(root.entries, path, i);
      var at := k - 1 - Offset(root.entries, path, i);
      n := Placed(root.entries[i], path + [SLASH] + root.entries[i].name, at);
      EntryOfChild(root, path, i, at);
    } else {
      n := root;
    }
  }

  /** Exactly one entry has the path p, and it says what n is. */
  ghost predicate OneEntryFor(es: seq<Entry>, n: Node, p: Path) {
    exists k :: 0 <= k < |es| && IsEntryOf(es[k], n, p) && forall j :: 0 <= j < |es| && es[j].path == p ==> j == k
  }

  predicate IsEntryOf(e: Entry, n: Node, p: Path) {
    !n.Special? && e == EntryOf(n, p)
  }

  ghost predicate SomeNodeFor(root: Node, e: Entry) {
    exists n :: Sits(root, root.name, n, e.path) && IsEntryOf(e, n, e.path)
  }

  /** The packer lists every directory, file, FIFO and symlink of the tree exactly once, under its own path,
      with its own stat and contents; and it lists nothing else. */
  lemma ListsTheTree(root: Node)
    requires TreeOk(root)
    ensures var es := Flatten(root, root.name);
      && (forall n, p :: Sits(root, root.name, n, p) && !n.Special? ==> OneEntryFor(es, n, p))
      && (forall k :: 0 <= k < |es| ==> SomeNodeFor(root, es[k]))
  {
    var es := Flatten(root, root.name);
    NoSlashNoParent(root.name);
    FlattenFine(root, root.name, {});
    forall n, p | Sits(root, root.name, n, p) && !n.Special? ensures OneEntryFor(es, n, p) {
      var k := Listed(root, root.name, n, p);
      assert IsEntryOf(es[k], n, p);
    }
    forall k | 0 <= k < |es| ensures SomeNodeFor(root, es[k]) {
      var n := Placed(root, root.name, k);
      assert IsEntryOf(es[k], n, es[k].path);
    }
  }

  // ---------- in which order ----------

  lemma BelowTwice(a: Path, b: Path, c: Path)
    requires Below(a, b) && Below(b, c)
    ensures Below(a, c)
  {
  }

  lemma {:induction false} SitsBelow(root: Node, path: Path, n: Node, p: Path)
    requires Sits(root, path, n, p)
    ensures Below(path, p)
    decreases root
  {
    if !(n == root && p == path) {
      var i :| 0 <= i < |root.entries| && Sits(root.entries[i], path + [SLASH] + root.entries[i].name, n, p);
      SitsBelow(root.entries[i], path + [SLASH] + root.entries[i].name, n, p);
      BelowChild(path, root.entries[i].name, p);
    }
  }

  lemma {:induction false} EachOk(entries: seq<Node>, i: nat)
    requires AllOk(entries) && i < |entries|
    ensures TreeOk(entries[i])
  {
    if i > 0 { EachOk(entries[1..], i - 1); }
  }

  lemma SameChild(entries: seq<Node>, path: Path, i: nat, c: nat, p: Path)
    requires AllOk(entries) && DistinctNames(entries) && i < |entries| && c < |entries|
    requires Below(path + [SLASH] + entries[i].name, p) && Below(path + [SLASH] + entries[c].name, p)
    ensures i == c
  {
    EachOk(entries, i);
    EachOk(entries, c);
    if |entries[i].name| <= |entries[c].name| {
      SiblingsApart(path, entries[i].name, entries[c].name, p);
    } else {
      SiblingsApart(path, entries[c].name, entries[i].name, p);
    }
  }

  /** Entry k of a directory lies below child c: so it is one of the entries of child c. */
  lemma InsideChild(root: Node, path: Path, c: nat, k: nat)
    requires TreeOk(root) && root.Dir? && c < |root.entries| && k < |Flatten(root, path)|
    requires Below(path + [SLASH] + root.entries[c].name, Flatten(root, path)[k].path)
    ensures Offset(root.entries, path, c) < k <= Offset(root.entries, path, c + 1)
    ensures var es := Flatten(root.entries[c], path + [SLASH] + root.entries[c].name);
      var at := k - 1 - Offset(root.entries, path, c);
      at < |es| && es[at] == Flatten(root, path)[k]
  {
    var p := Flatten(root, path)[k].path;
    BelowChild(path, root.entries[c].name, p);
    NotBelowItself(path, p);
    var i := OwnChild(root, path, k);
    SameChild(root.entries, path, i, c, p);
    ChildSlice(root.entries, path, c);
  }

  /** Entry k lies below a name of directory d, which sits in child c: so it is one of the entries of child c. */
  lemma DeeperInChild(root: Node, path: Path, c: nat, d: Node, q: Path, name: seq<byte>, k: nat)
    requires TreeOk(root) && root.Dir? && c < |root.entries| && k < |Flatten(root, path)|
    requires Sits(root.entries[c], path + [SLASH] + root.entries[c].name, d, q)
    requires Below(q + [SLASH] + name, Flatten(root, path)[k].path)
    ensures var es := Flatten(root.entries[c], path + [SLASH] + root.entries[c].name);
      var from := 1 + Offset(root.entries, path, c);
      from <= k < from + |es| && es[k - from] == Flatten(root, path)[k]
  {
    var cp, p := path + [SLASH] + root.entries[c].name, Flatten(root, path)[k].path;
    SitsBelow(root.entries[c], cp, d, q);
    BelowChild(q, name, p);
    BelowTwice(cp, q, p);
    InsideChild(root, path, c, k);
  }

  /** Children are packed in the order the directory lists them: all of child i before any of child j. */
  lemma {:induction false} ChildrenInOrder(root: Node, path: Path, d: Node, q: Path, i: nat, j: nat, a: nat, b: nat)
    requires TreeOk(root) && Sits(root, path, d, q) && d.Dir? && i < j < |d.entries|
    requires a < |Flatten(root, path)| && Below(q + [SLASH] + d.entries[i].name, Flatten(root, path)[a].path)
    requires b < |Flatten(root, path)| && Below(q + [SLASH] + d.entries[j].name, Flatten(root, path)[b].path)
    ensures a < b
    decreases root
  {
    if d == root && q == path {
      InsideChild(root, path, i, a);
      InsideChild(root, path, j, b);
      OffsetsRise(root.entries, path, i + 1, j);
    } else {
      var c :| 0 <= c < |root.entries| && Sits(root.entries[c], path + [SLASH] + root.entries[c].name, d, q);
      var from := 1 + Offset(root.entries, path, c);
      DeeperInChild(root, path, c, d, q, d.entries[i].name, a);
      DeeperInChild(root, path, c, d, q, d.entries[j].name, b);
      EachOk(root.entries, c);
      ChildrenInOrder(root.entries[c], path + [SLASH] + root.entries[c].name, d, q, i, j, a - from, b - from);
    }
  }

  /** A directory is packed before everything in it. */
  lemma {:induction false} DirectoryFirst(root: Node, path: Path, q: Path, a: nat, b: nat)
    requires TreeOk(root) && a < |Flatten(root, path)| && b < |Flatten(root, path)|
    requires Flatten(root, path)[a].path == q && q + [SLASH] <= Flatten(root, path)[b].path
    ensures a < b
    decreases root
  {
    if a == 0 {
      NotBelowItself(path, Flatten(root, path)[b].path);
    } else {
      var c := OwnChild(root, path, a);
      var cp, from := path + [SLASH] + root.entries[c].name, 1 + Offset(root.entries, path, c);
      BelowTwice(cp, q, Flatten(root, path)[b].path);
      InsideChild(root, path, c, b);
      EachOk(root.entries, c);
      DirectoryFirst(root.entries[c], cp, q, a - from, b - from);
    }
  }

  lemma NotBelowItself(path: Path, p: Path)
    requires path + [SLASH] <= p
    ensures p != path
  {
  }

  /** Behind the directory itself, every entry is one of some child's. */
  lemma OwnChild(root: Node, path: Path, k: nat) returns (c: nat)
    requires root.Dir? && 0 < k < |Flatten(root, path)|
    ensures c < |root.entries|
    ensures var cp := path + [SLASH] + root.entries[c].name;
      var es, from := Flatten(root.entries[c], cp), 1 + Offset(root.entries, path, c);
      from <= k < from + |es| && es[k - from] == Flatten(root, path)[k] && Below(cp, Flatten(root, path)[k].path)
  {
    c := ChildAt(root.entries, path, k - 1);
    ChildSlice(root.entries, path, c);
    EntryOfChild(root, path, c, k - 1 - Offset(root.entries, path, c));
    AllBelowFlatten(root.entries[c], path + [SLASH] + root.entries[c].name);
  }

  // ---------- the tree in the target directory ----------

  /** The object at p has the node's kind, contents and link target. */
  ghost predicate ShowsNode(fs: FS, n: Node, p: Path) {
    match Find(fs.names, p)
    case Found(DirObj) => n.Dir?
    case Found(RegObj(id)) => n.Reg? && id < |fs.inodes| && fs.inodes[id] == n.content
    case Found(FifoObj) => n.Fifo?
    case Found(LinkObj(id)) => n.Symlink? && id < |fs.targets| && fs.targets[id] == n.target
    case Absent => false
  }

  ghost predicate Occupied(root: Node, p: Path) {
    exists n :: Sits(root, root.name, n, p) && !n.Special?
  }

  /** Two names of one regular file. */
  predicate OneFile(n: Node, m: Node) {
    n.Reg? && m.Reg? && n.st.nlink > 1 && m.st.nlink > 1 && n.st.dev == m.st.dev && n.st.ino == m.st.ino
  }

  ghost predicate SharesNode(fs: FS, n: Node, p: Path, m: Node, q: Path) {
    (n.Reg? || n.Symlink?) && (m.Reg? || m.Symlink?) ==> (Find(fs.names, p) == Find(fs.names, q) <==> OneFile(n, m))
  }

  /** Every node but sockets and devices is there, as it was; nothing else is; and two names share a regular
      file or a symlink exactly when they are names of one regular file. */
  ghost predicate Recreated(fs: FS, root: Node) {
    && (forall n, p :: Sits(root, root.name, n, p) && !n.Special? ==> ShowsNode(fs, n, p))
    && (forall k :: 0 <= k < |fs.names| ==> Occupied(root, fs.names[k].path))
    && (forall n, p, m, q :: Sits(root, root.name, n, p) && Sits(root, root.name, m, q) && p != q ==>
          SharesNode(fs, n, p, m, q))
  }

  lemma ShowsEntry(fs: FS, n: Node, p: Path)
    requires !n.Special?
    ensures Shows(fs, EntryOf(n, p)) <==> ShowsNode(fs, n, p)
  {
  }

  lemma NodesShare(fs: FS, root: Node, n: Node, p: Path, m: Node, q: Path)
    requires Mirrors(fs, Flatten(root, root.name)) && p != q
    requires Sits(root, root.name, n, p) && Sits(root, root.name, m, q)
    ensures SharesNode(fs, n, p, m, q)
  {
    if (n.Reg? || n.Symlink?) && (m.Reg? || m.Symlink?) {
      var es := Flatten(root, root.name);
      var i := Listed(root, root.name, n, p);
      var j := Listed(root, root.name, m, q);
      if i < j { assert SharesRight(fs, es[i], es[j]); } else { assert SharesRight(fs, es[j], es[i]); }
    }
  }

  lemma MirrorsRecreates(fs: FS, root: Node)
    requires TreeOk(root) && Mirrors(fs, Flatten(root, root.name))
    ensures Recreated(fs, root)
  {
    var es := Flatten(root, root.name);
    forall n, p | Sits(root, root.name, n, p) && !n.Special? ensures ShowsNode(fs, n, p) {
      var k := Listed(root, root.name, n, p);
      ShowsEntry(fs, n, p);
    }
    forall k | 0 <= k < |fs.names| ensures Occupied(root, fs.names[k].path) {
      assert IsPathOf(fs.names[k].path, es);
      var i :| 0 <= i < |es| && es[i].path == fs.names[k].path;
      var n := Placed(root, root.name, i);
    }
    forall n, p, m, q | Sits(root, root.name, n, p) && Sits(root, root.name, m, q) && p != q
      ensures SharesNode(fs, n, p, m, q)
    {
      NodesShare(fs, root, n, p, m, q);
    }
  }

  lemma NothingElse(fs: FS, root: Node, k: nat) returns (i: nat)
    requires Recreated(fs, root) && k < |fs.names|
    ensures i < |Flatten(root, root.name)| && Flatten(root, root.name)[i].path == fs.names[k].path
  {
    var p := fs.names[k].path;
    assert Occupied(root, p);
    var n :| Sits(root, root.name, n, p) && !n.Special?;
    i := Listed(root, root.name, n, p);
  }

  lemma SharesAll(fs: FS, root: Node, i: nat, j: nat)
    requires Recreated(fs, root) && i < j < |Flatten(root, root.name)|
    requires DistinctPaths(Flatten(root, root.name))
    ensures SharesRight(fs, Flatten(root, root.name)[i], Flatten(root, root.name)[j])
  {
    var n := Placed(root, root.name, i);
    var m := Placed(root, root.name, j);
    var a, b := Flatten(root, root.name)[i], Flatten(root, root.name)[j];
    assert SharesNode(fs, n, a.path, m, b.path);
  }

  lemma RecreatedMirrors(fs: FS, root: Node)
    requires TreeOk(root) && Recreated(fs, root)
    ensures Mirrors(fs, Flatten(root, root.name))
  {
    var es := Flatten(root, root.name);
    NoSlashNoParent(root.name);
    FlattenFine(root, root.name, {});
    forall i | 0 <= i < |es| ensures Shows(fs, es[i]) {
      var n := Placed(root, root.name, i);
      ShowsEntry(fs, n, es[i].path);
    }
    forall k | 0 <= k < |fs.names| ensures IsPathOf(fs.names[k].path, es) {
      var i := NothingElse(fs, root, k);
    }
    forall i, j | 0 <= i < j < |es| ensures SharesRight(fs, es[i], es[j]) {
      SharesAll(fs, root, i, j);
    }
  }

  /** Pack any tree of directories, files, FIFOs and symlinks, unpack the archive into an empty directory: every
      node is there again, and nothing else, exactly when link counts and inode numbers tell its files apart. */
  lemma TreeRoundTrip(root: Node)
    requires RealTree(root)
    ensures var es := Flatten(root, root.name);
      var st := Extracted(Packed(es), Start());
      && (Recreated(st.fs, root) <==> CountsTellFilesApart(es) && InodesTellFilesApart(es))
      && (CountsTellFilesApart(es) && InodesTellFilesApart(es) ==> st.errs == 0 && !st.threw && st.pos == |Packed(es)|)
  {
    var fs := Extracted(Packed(Flatten(root, root.name)), Start()).fs;
    TreeIsSnapshot(root);
    UnpackMirrorsIff(Flatten(root, root.name));
    if Recreated(fs, root) { RecreatedMirrors(fs, root); }
    if Mirrors(fs, Flatten(root, root.name)) { MirrorsRecreates(fs, root); }
  }

  /** The header of entry e is stored at offset `at`, field by field in the order of inc/header.h: everything lstat
      reports but the device, and the two names. */
  ghost predicate HeaderAt(file: seq<byte>, at: nat, e: Entry) {
    var names, link := at + FIXED_SIZE, LinkOf(e.body);
    && names + |e.path| + |link| <= |file|
    && Word(file, at, 8) == |e.path| && Word(file, at + 8, 8) == |link|
    && Word(file, at + 16, 8) == e.st.ino && Word(file, at + 24, 4) == e.st.mode && Word(file, at + 28, 8) == e.st.nlink
    && Word(file, at + 36, 4) == e.st.uid && Word(file, at + 40, 4) == e.st.gid
    && Word(file, at + 44, 8) == e.st.atime.sec && Word(file, at + 52, 8) == e.st.atime.nsec
    && Word(file, at + 60, 8) == e.st.mtime.sec && Word(file, at + 68, 8) == e.st.mtime.nsec
    && 512 * Word(file, at + 76, 8) == SizeOf(e.body) + Word(file, at + 84, 4) && Word(file, at + 84, 4) < 512
    && file[names..names + |e.path|] == e.path
    && file[names + |e.path|..names + |e.path| + |link|] == link
  }

  lemma EntryStored(file: seq<byte>, at: nat, before: seq<Entry>, e: Entry)
    requires EntryOk(e) && At(file, at, EntryBytes(before, e))
    ensures HeaderAt(file, at, e)
  {
    BlocksCover(SizeOf(e.body));
    Pow256Values();
    AtSplit(file, at, Serialized(RecordOf(e)), DataOf(before, e));
    StoredFields(file, at, RecordOf(e));
  }

  /** Every node's header is in the archive, behind the entries packed before it. */
  lemma HeadersStored(root: Node, k: nat)
    requires RealTree(root) && k < |Flatten(root, root.name)|
    ensures var es := Flatten(root, root.name); HeaderAt(Packed(es), |Packed(es[..k])|, es[k])
  {
    var es := Flatten(root, root.name);
    TreeIsSnapshot(root);
    EntryNext(es, k);
    EntryStored(Packed(es), |Packed(es[..k])|, es[..k], es[k]);
  }

  lemma StoredFields(file: seq<byte>, at: nat, r: Record)
    requires Fits(r) && At(file, at, Serialized(r))
    ensures FieldsAt(file, at, Values(r)) && at + FIXED_SIZE + |r.path| + |r.link| <= |file|
    ensures Word(file, at, 8) == |r.path| && Word(file, at + 8, 8) == |r.link|
    ensures Word(file, at + 16, 8) == r.ino && Word(file, at + 24, 4) == r.mode && Word(file, at + 28, 8) == r.nlink
    ensures Word(file, at + 36, 4) == r.uid && Word(file, at + 40, 4) == r.gid
    ensures Word(file, at + 44, 8) == r.atime.sec && Word(file, at + 52, 8) == r.atime.nsec
    ensures Word(file, at + 60, 8) == r.mtime.sec && Word(file, at + 68, 8) == r.mtime.nsec
    ensures Word(file, at + 76, 8) == r.blocks && Word(file, at + 84, 4) == r.padding
    ensures var names := at + FIXED_SIZE;
      && file[names..names + |r.path|] == r.path
      && file[names + |r.path|..names + |r.path| + |r.link|] == r.link
  {
    Offsets();
    var vs := Values(r);
    var fixed := Words(vs, |vs|);
    Associative(fixed, r.path, r.link);
    AtSplit(file, at, fixed, r.path + r.link);
    AtSplit(file, at + FIXED_SIZE, r.path, r.link);
    ValuesAt(file, at, r);
    FixedFields(file, at, vs);
  }

  /** A directory whose name is taken, as when a tree is restored a second time, is an error. */
  lemma RestoredTwiceFails(root: Node, target: FS)
    requires RealTree(root) && root.Dir? && Find(target.names, root.name).Found?
    ensures SomeFails(Visits(Packed(Flatten(root, root.name)), StartIn(target)))
  {
    var es := Flatten(root, root.name);
    var file, st := Packed(es), StartIn(target);
    TreeIsSnapshot(root);
    EntryNext(es, 0);
    var at := ParseEntry(file, 0, es[..0], es[0]);
    assert Visits(file, st)[0] == Visit(st.(pos := at), RecordOf(es[0]));
    assert Fails(Visits(file, st)[0].read, Visits(file, st)[0].r);
  }

  // ---------- trees that are not recreated ----------

  const R: seq<byte> := [114]
  const A: seq<byte> := [97]
  const B: seq<byte> := [98]

  function StatOf(dev: nat, ino: nat, kind: nat, nlink: nat): Stat
  {
    Stat(dev, ino, kind * 0x1000, nlink, 0, 0, Time(0, 0), Time(0, 0))
  }

  /** A directory r with two one-byte files a and b. */
  function TwoFiles(a: Stat, b: Stat): Node {
    Dir(R, StatOf(1, 1, S_IFDIR, 2), [Reg(A, a, [1]), Reg(B, b, [2])])
  }

  function EntriesOf(a: Stat, b: Stat): seq<Entry> {
    [Entry(R, StatOf(1, 1, S_IFDIR, 2), IsDir),
     Entry(R + [SLASH] + A, a, IsReg([1])), Entry(R + [SLASH] + B, b, IsReg([2]))]
  }

  lemma TwoFilesEntries(a: Stat, b: Stat)
    ensures Flatten(TwoFiles(a, b), R) == EntriesOf(a, b)
  {
    var two := TwoFiles(a, b).entries;
    assert two[1..] == [two[1]] && two[1..][1..] == [];
    assert FlattenAll(two[1..], R) == [Entry(R + [SLASH] + B, b, IsReg([2]))];
    assert FlattenAll(two, R) == [Entry(R + [SLASH] + A, a, IsReg([1])), Entry(R + [SLASH] + B, b, IsReg([2]))];
  }

  lemma TwoFilesOk(a: Stat, b: Stat)
    requires StatOk(a) && StatOk(b) && Kind(a.mode) == S_IFREG && Kind(b.mode) == S_IFREG
    requires a.nlink > 1 && b.nlink > 1 && (a.dev != b.dev || a.ino != b.ino)
    ensures RealTree(TwoFiles(a, b))
  {
    TwoFilesEntries(a, b);
    Pow256Values();
    var two := TwoFiles(a, b).entries;
    assert two[1..] == [two[1]] && two[1..][1..] == [];
    assert TreeOk(two[0]) && TreeOk(two[1]);
    assert AllOk(two[1..]) && AllOk(two) && DistinctNames(two);
  }

  /** Two different files with link count 2, of which one name each was packed. */
  function ConfusedTree(): Node {
    TwoFiles(StatOf(1, 2, S_IFREG, 2), StatOf(1, 3, S_IFREG, 2))
  }

  lemma ConfusedEntries(es: seq<Entry>)
    requires es == EntriesOf(StatOf(1, 2, S_IFREG, 2), StatOf(1, 3, S_IFREG, 2))
    ensures FirstConfused(es, 2)
  {
    assert es[..2][1] == es[1];
    assert SeenCounts(es[..2]) == {2};
    assert es[..1] == [es[0]] && SeenCounts(es[..1]) == {};
  }

  /** Its second file loses its contents, and an exception escapes from the unpacker. */
  lemma ConfusedTreeEscapes()
    ensures var root := ConfusedTree();
      var es := Flatten(root, root.name);
      var st := Extracted(Packed(es), Start());
      RealTree(root) && !Recreated(st.fs, root) && st.threw
  {
    var a, b := StatOf(1, 2, S_IFREG, 2), StatOf(1, 3, S_IFREG, 2);
    var es := EntriesOf(a, b);
    Pow256Values();
    TwoFilesOk(a, b);
    TwoFilesEntries(a, b);
    TreeIsSnapshot(ConfusedTree());
    ConfusedEntries(es);
    LastConfusedEscapesIff(es, 2, 1);
    TreeRoundTrip(ConfusedTree());
    assert !CountTells(es, 2);
  }

  predicate Small(e: Entry) {
    EntryOk(e) && |e.path| <= 4 && !e.body.IsLink? && SizeOf(e.body) <= 512
  }

  lemma {:induction false} SmallArchive(es: seq<Entry>)
    requires forall i :: 0 <= i < |es| ==> Small(es[i])
    ensures |Packed(es)| <= 604 * |es|
    decreases |es|
  {
    if es != [] {
      var n := |es| - 1;
      SmallArchive(es[..n]);
      EntrySize(es[..n], es[n]);
      RoundUpWithin(SizeOf(es[n].body), 1);
    }
  }

  lemma ConfusedTreeSize()
    ensures |Packed(Flatten(ConfusedTree(), R))| < 2000
  {
    var a, b := StatOf(1, 2, S_IFREG, 2), StatOf(1, 3, S_IFREG, 2);
    var es := EntriesOf(a, b);
    TwoFilesEntries(a, b);
    Pow256Values();
    assert Small(es[0]) && Small(es[1]) && Small(es[2]);
    SmallArchive(es);
  }

  /** Files of two file systems with one inode number, told apart by their link counts. */
  function MountedTree(): Node {
    TwoFiles(StatOf(1, 2, S_IFREG, 2), StatOf(7, 2, S_IFREG, 3))
  }

  /** Its second file comes back as a hard link to the first. */
  lemma MountedTreeConfused()
    ensures var root := MountedTree();
      var es := Flatten(root, root.name);
      RealTree(root) && CountsTellFilesApart(es) && !Recreated(Extracted(Packed(es), Start()).fs, root)
  {
    var a, b := StatOf(1, 2, S_IFREG, 2), StatOf(7, 2, S_IFREG, 3);
    var es := EntriesOf(a, b);
    Pow256Values();
    TwoFilesOk(a, b);
    TwoFilesEntries(a, b);
    TreeIsSnapshot(MountedTree());
    MountedEntries(es);
    TreeRoundTrip(MountedTree());
  }

  lemma MountedEntries(es: seq<Entry>)
    requires es == EntriesOf(StatOf(1, 2, S_IFREG, 2), StatOf(7, 2, S_IFREG, 3))
    ensures CountsTellFilesApart(es) && !InodesTellFilesApart(es)
  {
    assert es[..2][1] == es[1];
    assert SeenCounts(es[..2]) == {2};
    assert es[..1] == [es[0]] && SeenCounts(es[..1]) == {};
    assert SameInode(es[1], es[2]) && !InodeTells(es, 2);
  }
}
