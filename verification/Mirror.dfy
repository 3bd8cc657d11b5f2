// Unpacking a packed tree: exactly when the target mirrors the source.
module Mirror {
  import opened Bytes
  import opened Posix
  import opened Headers
  import opened Archive
  import opened Target

  // ---------- what "the same tree" means ----------

  /** Two multiply linked files with one inode number, which is all the archive records of their identity. */
  predicate SameInode(a: Entry, b: Entry) {
    MultiLinked(a) && MultiLinked(b) && a.st.ino == b.st.ino
  }

  /** Two entries are names of one multiply linked file. */
  predicate SameFile(a: Entry, b: Entry) {
    SameInode(a, b) && a.st.dev == b.st.dev
  }

  /** The object at an entry's path has the entry's kind, contents and link target. */
  predicate Shows(fs: FS, e: Entry) {
    var at := Find(fs.names, e.path);
    at.Found? &&
    match e.body
    case IsDir => at.obj.DirObj?
    case IsReg(content) => at.obj.RegObj? && at.obj.id < |fs.inodes| && fs.inodes[at.obj.id] == content
    case IsFifo => at.obj.FifoObj?
    case IsLink(target) => at.obj.LinkObj? && at.obj.id < |fs.targets| && fs.targets[at.obj.id] == target
  }

  predicate HasObject(e: Entry) {
    e.body.IsReg? || e.body.IsLink?
  }

  ghost predicate SharesRight(fs: FS, a: Entry, b: Entry) {
    HasObject(a) && HasObject(b) ==> (Find(fs.names, a.path) == Find(fs.names, b.path) <==> SameFile(a, b))
  }

  ghost predicate IsPathOf(p: Path, es: seq<Entry>) {
    exists i :: 0 <= i < |es| && es[i].path == p
  }

  /** Same paths, same kinds and contents, and two names share an object exactly when they did before. */
  ghost predicate Mirrors(fs: FS, es: seq<Entry>) {
    && (forall i :: 0 <= i < |es| ==> Shows(fs, es[i]))
    && (forall k :: 0 <= k < |fs.names| ==> IsPathOf(fs.names[k].path, es))
    && (forall i, j :: 0 <= i < j < |es| ==> SharesRight(fs, es[i], es[j]))
  }

  // ---------- facts about the entries of a snapshot ----------

  predicate EntryOk(e: Entry) {
    && StatOk(e.st) && e.path != [] && 0 !in e.path && |e.path| < U64
    && match e.body
       case IsDir => Kind(e.st.mode) == S_IFDIR
       case IsReg(content) => Kind(e.st.mode) == S_IFREG && |content| < U64
       case IsFifo => Kind(e.st.mode) == S_IFIFO
       case IsLink(target) => Kind(e.st.mode) == S_IFLNK && target != [] && 0 !in target && |target| < U64
  }

  predicate DistinctPaths(es: seq<Entry>) {
    forall i, j :: 0 <= i < j < |es| ==> es[i].path != es[j].path
  }

  /** The parent of entry i is an earlier directory, one of the roots, or the target itself. */
  ghost predicate ParentBefore(es: seq<Entry>, i: nat, roots: set<Path>)
    requires i < |es|
  {
    var p := ParentOf(es[i].path);
    !p.0 || p.1 in roots || exists j :: 0 <= j < i && es[j].path == p.1 && es[j].body.IsDir?
  }

  ghost predicate ParentsFirst(es: seq<Entry>, roots: set<Path>) {
    forall i :: 0 <= i < |es| ==> ParentBefore(es, i, roots)
  }

  /** One inode has one link count and one content. */
  predicate ConsistentInodes(es: seq<Entry>) {
    forall i, j :: 0 <= i < j < |es| && SameFile(es[i], es[j]) ==>
      es[i].st.nlink == es[j].st.nlink && es[i].body == es[j].body
  }

  ghost predicate Snapshot(es: seq<Entry>) {
    && (forall i :: 0 <= i < |es| ==> EntryOk(es[i]))
    && DistinctPaths(es) && ParentsFirst(es, {}) && ConsistentInodes(es)
  }

  predicate FirstOfFile(before: seq<Entry>, e: Entry) {
    e.body.IsReg? && forall j :: 0 <= j < |before| ==> !SameFile(before[j], e)
  }

  predicate CountMet(before: seq<Entry>, e: Entry) {
    exists j :: 0 <= j < |before| && MultiLinked(before[j]) && before[j].st.nlink == e.st.nlink
  }

  /** Entry i is not mistaken for a hard link: if it has data, and an earlier multiply linked file has
      its link count, then an earlier entry names the very same file. */
  predicate CountTells(es: seq<Entry>, i: nat)
    requires i < |es|
  {
    FirstOfFile(es[..i], es[i]) && SizeOf(es[i].body) > 0 ==> !(MultiLinked(es[i]) && CountMet(es[..i], es[i]))
  }

  predicate CountsTellFilesApart(es: seq<Entry>) {
    forall i :: 0 <= i < |es| ==> CountTells(es, i)
  }

  /** Entry i does not share its inode number with a file of another file system. */
  predicate InodeTells(es: seq<Entry>, i: nat)
    requires i < |es|
  {
    forall j :: 0 <= j < i && SameInode(es[j], es[i]) ==> SameFile(es[j], es[i])
  }

  predicate InodesTellFilesApart(es: seq<Entry>) {
    forall i :: 0 <= i < |es| ==> InodeTells(es, i)
  }

  /** Data is left out exactly for a multiply linked file whose link count was met before. */
  lemma WritesDataIff(before: seq<Entry>, e: Entry)
    ensures WritesData(before, e) <==> e.body.IsReg? && !(MultiLinked(e) && CountMet(before, e))
  {
    if j :| 0 <= j < |before| && MultiLinked(before[j]) && before[j].st.nlink == e.st.nlink {
      assert before[j].st.nlink in SeenCounts(before);
    }
  }

  // ---------- lookups ----------

  lemma {:induction false} FindAppend(names: seq<Name>, n: Name, path: Path)
    ensures Find(names + [n], path) == if n.path == path then Found(n.obj) else Find(names, path)
  {
    assert (names + [n])[..|names|] == names;
  }

  lemma {:induction false} FindSound(names: seq<Name>, path: Path)
    ensures Find(names, path).Found? <==> path == [] || exists k :: 0 <= k < |names| && names[k].path == path
  {
    if names != [] {
      var n := |names| - 1;
      FindSound(names[..n], path);
      if names[n].path != path {
        if k :| 0 <= k < |names| && names[k].path == path {
          assert names[..n][k].path == path;
        }
      }
    }
  }

  lemma NewNameAbsent(fs: FS, es: seq<Entry>, path: Path)
    requires path != [] && Mirrors(fs, es) && forall i :: 0 <= i < |es| ==> es[i].path != path
    ensures Find(fs.names, path) == Absent
  {
    FindSound(fs.names, path);
  }

  // ---------- extending a mirror by one entry ----------

  /** Adding a name leaves what other paths show as it was. */
  lemma ShowsKept(fs: FS, fs': FS, n: Name, e: Entry)
    requires Shows(fs, e) && e.path != n.path && fs'.names == fs.names + [n]
    requires fs.inodes <= fs'.inodes && fs.targets <= fs'.targets
    ensures Shows(fs', e) && Find(fs'.names, e.path) == Find(fs.names, e.path)
  {
    FindAppend(fs.names, n, e.path);
  }

  lemma MirrorExtends(fs: FS, fs': FS, n: Name, es: seq<Entry>, e: Entry)
    requires Mirrors(fs, es) && fs'.names == fs.names + [n] && n.path == e.path
    requires fs.inodes <= fs'.inodes && fs.targets <= fs'.targets
    requires forall i :: 0 <= i < |es| ==> es[i].path != e.path
    requires Shows(fs', e)
    requires forall i :: 0 <= i < |es| && HasObject(es[i]) && HasObject(e) ==>
      (Find(fs.names, es[i].path) == Found(n.obj) <==> SameFile(es[i], e))
    ensures Mirrors(fs', es + [e])
  {
    var more := es + [e];
    FindAppend(fs.names, n, e.path);
    forall i | 0 <= i < |es| ensures Shows(fs', es[i]) && Find(fs'.names, es[i].path) == Find(fs.names, es[i].path) {
      ShowsKept(fs, fs', n, es[i]);
    }
    forall k | 0 <= k < |fs'.names| ensures IsPathOf(fs'.names[k].path, more) {
      if k < |fs.names| {
        assert fs.names[k] == fs'.names[k];
        assert IsPathOf(fs.names[k].path, es);
        var i :| 0 <= i < |es| && es[i].path == fs.names[k].path;
        assert more[i].path == fs'.names[k].path;
      } else {
        assert more[|es|].path == fs'.names[k].path;
      }
    }
    forall i, j | 0 <= i < j < |more| ensures SharesRight(fs', more[i], more[j]) {
      if j < |es| { assert SharesRight(fs, es[i], es[j]); }
    }
  }

  // ---------- one step of the unpacker over a packed entry ----------

  /** hard_lk_map_ holds, for every inode met so far, the path of one of its names. */
  ghost predicate LinksTrack(links: map<nat, Path>, es: seq<Entry>) {
    && (forall i :: 0 <= i < |es| && MultiLinked(es[i]) ==> es[i].st.ino in links)
    && (forall ino :: ino in links ==>
          exists i :: 0 <= i < |es| && MultiLinked(es[i]) && es[i].st.ino == ino && es[i].path == links[ino])
  }

  /** After the entries es: the offset is the end of their bytes, nothing failed, and the target mirrors them. */
  ghost predicate InStep(st: State, es: seq<Entry>) {
    && st.pos == |Packed(es)| && st.errs == 0 && !st.threw
    && Mirrors(st.fs, es) && LinksTrack(st.links, es)
  }

  lemma LinksKept(links: map<nat, Path>, es: seq<Entry>, e: Entry)
    requires LinksTrack(links, es) && (MultiLinked(e) ==> e.st.ino in links)
    ensures LinksTrack(links, es + [e])
  {
    var more := es + [e];
    assert forall i :: 0 <= i < |es| ==> more[i] == es[i];
    forall ino | ino in links
      ensures exists i :: 0 <= i < |more| && MultiLinked(more[i]) && more[i].st.ino == ino && more[i].path == links[ino]
    {
      var i :| 0 <= i < |es| && MultiLinked(es[i]) && es[i].st.ino == ino && es[i].path == links[ino];
      assert more[i].path == links[ino];
    }
  }

  lemma LinksAdd(links: map<nat, Path>, es: seq<Entry>, e: Entry)
    requires LinksTrack(links, es) && MultiLinked(e) && e.st.ino !in links
    ensures LinksTrack(links[e.st.ino := e.path], es + [e])
  {
    var more, links' := es + [e], links[e.st.ino := e.path];
    assert forall i :: 0 <= i < |es| ==> more[i] == es[i];
    assert more[|es|] == e;
    forall ino | ino in links'
      ensures exists i :: 0 <= i < |more| && MultiLinked(more[i])
                          && more[i].st.ino == ino && more[i].path == links'[ino]
    {
      if ino != e.st.ino {
        var i :| 0 <= i < |es| && MultiLinked(es[i]) && es[i].st.ino == ino && es[i].path == links[ino];
        assert more[i].path == links'[ino];
      }
    }
  }

  /** Entry e may follow es: new path, parent directory present. */
  ghost predicate Follows(es: seq<Entry>, e: Entry) {
    && EntryOk(e) && (forall i :: 0 <= i < |es| ==> es[i].path != e.path)
    && (var p := ParentOf(e.path); !p.0 || exists j :: 0 <= j < |es| && es[j].path == p.1 && es[j].body.IsDir?)
    && (forall i :: 0 <= i < |es| && SameFile(es[i], e) ==> es[i].st.nlink == e.st.nlink && es[i].body == e.body)
  }

  /** The inode number of e means the same file as in es. */
  predicate InodeFits(es: seq<Entry>, e: Entry) {
    forall i :: 0 <= i < |es| && SameInode(es[i], e) ==> SameFile(es[i], e)
  }

  lemma ParentThere(fs: FS, es: seq<Entry>, e: Entry)
    requires Mirrors(fs, es) && Follows(es, e)
    ensures ParentExists(fs.names, e.path) && CanCreate(fs.names, e.path)
  {
    NewNameAbsent(fs, es, e.path);
    var p := ParentOf(e.path);
    if p.0 {
      var j :| 0 <= j < |es| && es[j].path == p.1 && es[j].body.IsDir?;
      assert Shows(fs, es[j]);
    }
  }

  /** Directories, FIFOs and symlinks. */
  lemma StepPlain(file: seq<byte>, st: State, es: seq<Entry>, e: Entry)
    requires InStep(st.(pos := |Packed(es)|), es) && Follows(es, e) && !e.body.IsReg? && st.pos <= |file|
    ensures var st' := Restore(file, st, RecordOf(e));
      st'.pos == st.pos && st'.errs == 0 && !st'.threw && Mirrors(st'.fs, es + [e]) && LinksTrack(st'.links, es + [e])
  {
    ParentThere(st.fs, es, e);
    LinksKept(st.links, es, e);
    var st' := Restore(file, st, RecordOf(e));
    var obj := match e.body
      case IsDir => DirObj
      case IsFifo => FifoObj
      case IsLink(_) => LinkObj(|st.fs.targets|)
      case IsReg(_) => DirObj;
    var n := Name(e.path, obj);
    assert st'.fs.names == st.fs.names + [n];
    FindAppend(st.fs.names, n, e.path);
    forall i | 0 <= i < |es| && HasObject(es[i]) && HasObject(e)
      ensures Find(st.fs.names, es[i].path) == Found(n.obj) <==> SameFile(es[i], e)
    {
      assert Shows(st.fs, es[i]);
    }
    MirrorExtends(st.fs, st'.fs, n, es, e);
  }

  /** An inode met before: some earlier entry is a name of the file, and the packer wrote no data. */
  lemma MetBefore(links: map<nat, Path>, es: seq<Entry>, e: Entry) returns (j: nat)
    requires LinksTrack(links, es) && Follows(es, e) && InodeFits(es, e) && MultiLinked(e) && e.st.ino in links
    ensures j < |es| && SameFile(es[j], e) && es[j].path == links[e.st.ino] && es[j].body == e.body
    ensures !WritesData(es, e)
  {
    j :| 0 <= j < |es| && MultiLinked(es[j]) && es[j].st.ino == e.st.ino && es[j].path == links[e.st.ino];
    assert es[j].st.nlink in SeenCounts(es);
  }

  /** link() adds one name for the object already there. */
  lemma LinkMirrors(st: State, es: seq<Entry>, j: nat, e: Entry)
    requires Mirrors(st.fs, es) && Follows(es, e) && j < |es| && SameFile(es[j], e) && es[j].body == e.body
    ensures var st' := LinkName(st, es[j].path, e.path);
      st' == st.(fs := st'.fs) && Mirrors(st'.fs, es + [e])
  {
    ParentThere(st.fs, es, e);
    SharesVia(st.fs, es, j, e);
    var n := Name(e.path, Find(st.fs.names, es[j].path).obj);
    FindAppend(st.fs.names, n, e.path);
    MirrorExtends(st.fs, st.fs.(names := st.fs.names + [n]), n, es, e);
  }

  /** A further name of a file already restored: a hard link, and no data to skip. */
  lemma StepLink(file: seq<byte>, st: State, es: seq<Entry>, e: Entry)
    requires InStep(st.(pos := |Packed(es)|), es) && Follows(es, e) && InodeFits(es, e)
    requires MultiLinked(e) && e.st.ino in st.links && st.pos <= |file|
    ensures var st' := Restore(file, st, RecordOf(e));
      st'.pos == st.pos && st'.errs == 0 && !st'.threw && Mirrors(st'.fs, es + [e]) && LinksTrack(st'.links, es + [e])
    ensures !WritesData(es, e)
  {
    var j := MetBefore(st.links, es, e);
    LinkMirrors(st, es, j, e);
    LinksKept(st.links, es, e);
  }

  /** Whoever shares an object with one name of e's file is a name of e's file. */
  lemma SharesVia(fs: FS, es: seq<Entry>, j: nat, e: Entry)
    requires Mirrors(fs, es) && j < |es| && SameFile(es[j], e)
    ensures Shows(fs, es[j])
    ensures forall i :: 0 <= i < |es| && HasObject(es[i]) ==>
      (Find(fs.names, es[i].path) == Found(Find(fs.names, es[j].path).obj) <==> SameFile(es[i], e))
  {
    forall i | 0 <= i < |es| && HasObject(es[i])
      ensures Find(fs.names, es[i].path) == Find(fs.names, es[j].path) <==> SameFile(es[i], e)
    {
      if i < j { assert SharesRight(fs, es[i], es[j]); }
      if j < i { assert SharesRight(fs, es[j], es[i]); }
    }
  }

  /** The first name of a file: a new inode with the copied bytes. */
  lemma StepFile(file: seq<byte>, st: State, es: seq<Entry>, e: Entry, c: Copied)
    requires InStep(st.(pos := |Packed(es)|), es) && Follows(es, e) && e.body.IsReg?
    requires MultiLinked(e) ==> e.st.ino !in st.links
    requires st.pos <= |file|
    requires c == CopyOut(file, st.pos, BlocksOf(|e.body.content|), PaddingOf(|e.body.content|))
    requires c.bytes == e.body.content && !c.threw
    ensures var st' := Restore(file, st, RecordOf(e));
      st'.pos == c.pos && st'.errs == 0 && !st'.threw && Mirrors(st'.fs, es + [e]) && LinksTrack(st'.links, es + [e])
  {
    ParentThere(st.fs, es, e);
    if MultiLinked(e) { LinksAdd(st.links, es, e); } else { LinksKept(st.links, es, e); }
    var n := Name(e.path, RegObj(|st.fs.inodes|));
    var st' := Restore(file, st, RecordOf(e));
    assert st'.fs.names == st.fs.names + [n] && st'.fs.inodes == st.fs.inodes + [c.bytes];
    FindAppend(st.fs.names, n, e.path);
    forall i | 0 <= i < |es| && HasObject(es[i])
      ensures Find(st.fs.names, es[i].path) == Found(n.obj) <==> SameFile(es[i], e)
    {
      assert Shows(st.fs, es[i]);
    }
    MirrorExtends(st.fs, st'.fs, n, es, e);
  }

  // ---------- reading data back ----------

  lemma {:induction false} CopyBack(file: seq<byte>, pos: nat, content: seq<byte>, padding: nat, blocks: nat)
    requires At(file, pos, content + Zeros(padding)) && |content| + padding == 512 * blocks && padding < 512
    ensures CopyOut(file, pos, blocks, padding) == Copied(content, pos + 512 * blocks, false)
    decreases blocks
  {
    if blocks > 0 {
      var whole := content + Zeros(padding);
      var head, rest := whole[..512], whole[512..];
      assert whole == head + rest;
      AtSplit(file, pos, head, rest);
      assert Chunk(file, pos, 512) == head;
      if blocks > 1 {
        assert rest == content[512..] + Zeros(padding);
        CopyBack(file, pos + 512, content[512..], padding, blocks - 1);
        assert content == head + content[512..];
      } else {
        assert head[..512 - padding] == content;
      }
    }
  }

  lemma ParseEntry(file: seq<byte>, pos: nat, es: seq<Entry>, e: Entry) returns (at: nat)
    requires EntryOk(e) && At(file, pos, EntryBytes(es, e))
    ensures pos <= |file| && Parse(file, pos) == Got(RecordOf(e), at) && at == pos + |Serialized(RecordOf(e))|
    ensures At(file, at, DataOf(es, e))
  {
    AtSplit(file, pos, Serialized(RecordOf(e)), DataOf(es, e));
    BlocksCover(SizeOf(e.body));
    Pow256Values();
    HeaderRoundTrip(file, pos, RecordOf(e));
    at := pos + |Serialized(RecordOf(e))|;
  }

  /** st' is st after one iteration of the Extract loop. */
  ghost predicate Iterates(file: seq<byte>, st: State, st': State) {
    && st.pos <= |file| && !st.threw && Parse(file, st.pos).Got? && st'.pos <= |file|
    && st' == Restore(file, st.(pos := Parse(file, st.pos).next), Parse(file, st.pos).r)
  }

  /** After the header of e has been read: the data that belongs to it is consumed and e restored. */
  lemma StepBody(file: seq<byte>, read: State, es: seq<Entry>, e: Entry)
    requires InStep(read.(pos := |Packed(es)|), es) && Follows(es, e) && InodeFits(es, e)
    requires FirstOfFile(es, e) && SizeOf(e.body) > 0 ==> WritesData(es, e)
    requires At(file, read.pos, DataOf(es, e))
    ensures var st' := Restore(file, read, RecordOf(e));
      st'.pos == read.pos + |DataOf(es, e)| && st'.errs == 0 && !st'.threw
      && Mirrors(st'.fs, es + [e]) && LinksTrack(st'.links, es + [e])
  {
    if !e.body.IsReg? {
      StepPlain(file, read, es, e);
    } else if MultiLinked(e) && e.st.ino in read.links {
      StepLink(file, read, es, e);
    } else {
      StepData(file, read, es, e, DataOf(es, e));
    }
  }

  lemma IteratesVia(file: seq<byte>, st: State, r: Record, read: State, st': State)
    requires st.pos <= |file| && !st.threw && Parse(file, st.pos) == Got(r, read.pos)
    requires read == st.(pos := read.pos) && st' == Restore(file, read, r)
    ensures Iterates(file, st, st')
  {
  }

  lemma EntrySpan(es: seq<Entry>, e: Entry)
    ensures |Packed(es + [e])| == |Packed(es)| + |Serialized(RecordOf(e))| + |DataOf(es, e)|
  {
    PackedAppend(es, e);
  }

  /** One loop iteration over a packed entry keeps the unpacker in step. */
  lemma StepEntry(file: seq<byte>, st: State, es: seq<Entry>, e: Entry) returns (st': State)
    requires InStep(st, es) && Follows(es, e) && InodeFits(es, e)
    requires FirstOfFile(es, e) && SizeOf(e.body) > 0 ==> WritesData(es, e)
    requires At(file, |Packed(es)|, EntryBytes(es, e))
    ensures Iterates(file, st, st') && InStep(st', es + [e])
  {
    var at := ParseEntry(file, st.pos, es, e);
    EntrySpan(es, e);
    var read := st.(pos := at);
    StepBody(file, read, es, e);
    st' := Restore(file, read, RecordOf(e));
    IteratesVia(file, st, RecordOf(e), read, st');
  }

  lemma StepData(file: seq<byte>, read: State, es: seq<Entry>, e: Entry, data: seq<byte>)
    requires InStep(read.(pos := |Packed(es)|), es) && Follows(es, e) && e.body.IsReg?
    requires MultiLinked(e) ==> e.st.ino !in read.links
    requires FirstOfFile(es, e) && SizeOf(e.body) > 0 ==> WritesData(es, e)
    requires data == if WritesData(es, e) then Padded(e.body.content) else []
    requires At(file, read.pos, data)
    ensures var st' := Restore(file, read, RecordOf(e));
      st'.pos == read.pos + |data| && st'.errs == 0 && !st'.threw
      && Mirrors(st'.fs, es + [e]) && LinksTrack(st'.links, es + [e])
  {
    var content := e.body.content;
    var blocks, padding := BlocksOf(|content|), PaddingOf(|content|);
    BlocksCover(|content|);
    assert FirstOfFile(es, e);
    if !WritesData(es, e) {
      assert content == [] && content + Zeros(padding) == [];
    }
    CopyBack(file, read.pos, content, padding, blocks);
    StepFile(file, read, es, e, CopyOut(file, read.pos, blocks, padding));
  }

  // ---------- the condition suffices ----------

  lemma LongerPrefix(a: seq<byte>, b: seq<byte>, c: seq<byte>)
    requires a <= b
    ensures a <= b + c
  {
  }

  lemma PrefixOfPrefix(es: seq<Entry>, n: nat, k: nat)
    requires k <= n <= |es|
    ensures es[..n][..k] == es[..k]
  {
  }

  lemma LastPacked(es: seq<Entry>, n: nat)
    requires n + 1 == |es|
    ensures Packed(es) == Packed(es[..n]) + EntryBytes(es[..n], es[n])
  {
  }

  lemma {:induction false} PackedGrows(es: seq<Entry>, k: nat)
    requires k <= |es|
    ensures Packed(es[..k]) <= Packed(es)
    decreases |es|
  {
    if k == |es| {
      assert es[..k] == es;
    } else {
      var n := |es| - 1;
      PackedGrows(es[..n], k);
      PrefixOfPrefix(es, n, k);
      LastPacked(es, n);
      LongerPrefix(Packed(es[..k]), Packed(es[..n]), EntryBytes(es[..n], es[n]));
    }
  }

  lemma PrefixAt(file: seq<byte>, a: seq<byte>, b: seq<byte>)
    requires a + b <= file
    ensures At(file, |a|, b) && |a| <= |file|
  {
    assert file[|a|..|a| + |b|] == (a + b)[|a|..|a| + |b|] == b;
  }

  lemma OneLonger(es: seq<Entry>, k: nat)
    requires k < |es|
    ensures es[..k + 1] == es[..k] + [es[k]]
  {
  }

  lemma OneMorePacked(es: seq<Entry>, k: nat)
    requires k < |es|
    ensures Packed(es[..k + 1]) == Packed(es[..k]) + EntryBytes(es[..k], es[k])
  {
    OneLonger(es, k);
    PackedAppend(es[..k], es[k]);
  }

  lemma EntryAt(es: seq<Entry>, k: nat)
    requires k < |es|
    ensures At(Packed(es), |Packed(es[..k])|, EntryBytes(es[..k], es[k]))
  {
    PackedGrows(es, k + 1);
    OneMorePacked(es, k);
    PrefixAt(Packed(es), Packed(es[..k]), EntryBytes(es[..k], es[k]));
  }

  lemma SnapshotFollows(es: seq<Entry>, k: nat)
    requires Snapshot(es) && k < |es|
    ensures Follows(es[..k], es[k])
  {
    assert ParentBefore(es, k, {});
    var p := ParentOf(es[k].path);
    if p.0 {
      var j :| 0 <= j < k && es[j].path == p.1 && es[j].body.IsDir?;
      assert es[..k][j].path == p.1;
    }
  }

  lemma Unfold(file: seq<byte>, st: State, st': State)
    requires Iterates(file, st, st')
    ensures Extracted(file, st) == Extracted(file, st')
  {
  }

  /** Entry e is the next one in the archive, behind the entries `before`. */
  ghost predicate Next(file: seq<byte>, before: seq<Entry>, e: Entry) {
    Follows(before, e) && At(file, |Packed(before)|, EntryBytes(before, e))
  }

  /** ... and is told apart from them. */
  ghost predicate Ready(file: seq<byte>, before: seq<Entry>, e: Entry) {
    && Next(file, before, e) && InodeFits(before, e)
    && (FirstOfFile(before, e) && SizeOf(e.body) > 0 ==> WritesData(before, e))
  }

  /** Entries up to k are told apart, by their counts and by their inode numbers. */
  ghost predicate ToldApart(es: seq<Entry>, k: nat) {
    k <= |es| && forall i :: 0 <= i < k ==> CountTells(es, i) && InodeTells(es, i)
  }

  lemma TellsAt(es: seq<Entry>, k: nat)
    requires k < |es|
    ensures CountTells(es, k) ==>
      (FirstOfFile(es[..k], es[k]) && SizeOf(es[k].body) > 0 ==> WritesData(es[..k], es[k]))
    ensures InodeTells(es, k) ==> InodeFits(es[..k], es[k])
  {
    WritesDataIff(es[..k], es[k]);
  }

  lemma EntryNext(es: seq<Entry>, k: nat)
    requires Snapshot(es) && k < |es|
    ensures Next(Packed(es), es[..k], es[k])
  {
    var file, before, e := Packed(es), es[..k], es[k];
    assert Follows(before, e) by { SnapshotFollows(es, k); }
    assert At(file, |Packed(before)|, EntryBytes(before, e)) by { EntryAt(es, k); }
  }

  lemma EntryReady(es: seq<Entry>, k: nat)
    requires Snapshot(es) && k < |es| && CountTells(es, k) && InodeTells(es, k)
    ensures Ready(Packed(es), es[..k], es[k])
  {
    TellsAt(es, k);
    EntryNext(es, k);
  }

  /** One iteration over an entry that is ready. */
  lemma NextInStep(file: seq<byte>, before: seq<Entry>, e: Entry, st: State, after: seq<Entry>) returns (st': State)
    requires Ready(file, before, e) && InStep(st, before) && after == before + [e]
    ensures InStep(st', after) && st.pos <= |file| && st'.pos <= |file|
    ensures Extracted(file, st) == Extracted(file, st')
  {
    st' := StepEntry(file, st, before, e);
    Unfold(file, st, st');
  }

  /** One iteration, at entry j of the archive. */
  lemma NextReached(file: seq<byte>, es: seq<Entry>, j: nat, k: nat, st: State) returns (st': State)
    requires Snapshot(es) && j < |es| && k == j + 1 && CountTells(es, j) && InodeTells(es, j) && file == Packed(es)
    requires InStep(st, es[..j])
    ensures InStep(st', es[..k]) && st.pos <= |file| && st'.pos <= |file|
    ensures Extracted(file, st) == Extracted(file, st')
  {
    EntryReady(es, j);
    OneLonger(es, j);
    st' := NextInStep(file, es[..j], es[j], st, es[..k]);
  }

  lemma StartInStep(es: seq<Entry>)
    ensures InStep(Start(), es[..0])
  {
    assert es[..0] == [];
  }

  /** The loop runs in step up to any entry before which all files are told apart. */
  lemma {:induction false} ReachesInStep(file: seq<byte>, es: seq<Entry>, k: nat) returns (st: State)
    requires Snapshot(es) && ToldApart(es, k) && file == Packed(es)
    ensures InStep(st, es[..k]) && st.pos <= |file| && Extracted(file, Start()) == Extracted(file, st)
    decreases k
  {
    if k == 0 {
      StartInStep(es);
      st := Start();
    } else {
      var before := ReachesInStep(file, es, k - 1);
      st := NextReached(file, es, k - 1, k, before);
    }
  }

  lemma ConditionSuffices(es: seq<Entry>)
    requires Snapshot(es) && CountsTellFilesApart(es) && InodesTellFilesApart(es)
    ensures InStep(Extracted(Packed(es), Start()), es)
  {
    assert es[..|es|] == es;
    var st := ReachesInStep(Packed(es), es, |es|);
    ExtractedEnds(Packed(es), st);
  }

  lemma ExtractedEnds(file: seq<byte>, st: State)
    requires st.pos == |file|
    ensures Extracted(file, st) == st
  {
  }

  // ---------- the condition is necessary: a counting argument ----------

  function PathsNeed(es: seq<Entry>): nat {
    if es == [] then 0 else PathsNeed(es[..|es| - 1]) + FIXED_SIZE + |es[|es| - 1].path|
  }

  function TargetsNeed(es: seq<Entry>): nat {
    if es == [] then 0 else TargetsNeed(es[..|es| - 1]) + |LinkOf(es[|es| - 1].body)|
  }

  function DataNeedAt(es: seq<Entry>, i: nat): nat
    requires i < |es|
  {
    if FirstOfFile(es[..i], es[i]) then RoundUp(SizeOf(es[i].body)) else 0
  }

  /** Whole blocks for one copy of every file. */
  function DataNeed(es: seq<Entry>): nat {
    if es == [] then 0
    else
      var n := |es| - 1;
      DataNeed(es[..n]) + DataNeedAt(es, n)
  }

  function Need(es: seq<Entry>): nat {
    PathsNeed(es) + TargetsNeed(es) + DataNeed(es)
  }

  /** Under a shared inode the link count is shared, so the packer never writes a file twice. */
  lemma WritesOnlyFirst(es: seq<Entry>, e: Entry)
    requires forall i :: 0 <= i < |es| && SameFile(es[i], e) ==> es[i].st.nlink == e.st.nlink
    ensures WritesData(es, e) ==> FirstOfFile(es, e)
  {
    if e.body.IsReg? && !FirstOfFile(es, e) {
      var j :| 0 <= j < |es| && SameFile(es[j], e);
      assert es[j].st.nlink in SeenCounts(es);
    }
  }

  lemma TellsSame(es: seq<Entry>, n: nat, i: nat)
    requires i < n <= |es|
    ensures CountTells(es[..n], i) == CountTells(es, i)
  {
    assert es[..n][..i] == es[..i];
  }

  lemma TellsBefore(es: seq<Entry>, n: nat)
    requires n + 1 == |es|
    ensures CountsTellFilesApart(es) <==> CountsTellFilesApart(es[..n]) && CountTells(es, n)
  {
    forall i | 0 <= i < n ensures CountTells(es[..n], i) == CountTells(es, i) {
      TellsSame(es, n, i);
    }
  }

  function EntryNeed(es: seq<Entry>, n: nat): nat
    requires n < |es|
  {
    FIXED_SIZE + |es[n].path| + |LinkOf(es[n].body)| + DataNeedAt(es, n)
  }

  lemma NeedSplit(es: seq<Entry>, n: nat)
    requires n + 1 == |es|
    ensures Need(es) == Need(es[..n]) + EntryNeed(es, n)
    ensures |Packed(es)| == |Packed(es[..n])| + |EntryBytes(es[..n], es[n])|
  {
  }

  /** What the packer spends on entry n, against what a faithful copy needs for it. */
  lemma EntryAtMostNeed(es: seq<Entry>, n: nat)
    requires n < |es| && EntryOk(es[n]) && ConsistentInodes(es)
    ensures |EntryBytes(es[..n], es[n])| <= EntryNeed(es, n)
    ensures !CountTells(es, n) ==> |EntryBytes(es[..n], es[n])| + 512 <= EntryNeed(es, n)
  {
    var e := es[n];
    forall i | 0 <= i < n && SameFile(es[..n][i], e) ensures es[..n][i].st.nlink == e.st.nlink {
      assert SameFile(es[i], e);
    }
    WritesOnlyFirst(es[..n], e);
    WritesDataIff(es[..n], e);
    BlocksCover(SizeOf(e.body));
    EntrySize(es[..n], e);
  }

  lemma {:induction false} ArchiveAtMostNeed(es: seq<Entry>)
    requires (forall i :: 0 <= i < |es| ==> EntryOk(es[i])) && ConsistentInodes(es)
    ensures |Packed(es)| <= Need(es)
    ensures !CountsTellFilesApart(es) ==> |Packed(es)| + 512 <= Need(es)
    decreases |es|
  {
    if es != [] {
      var n := |es| - 1;
      ArchiveAtMostNeed(es[..n]);
      EntryAtMostNeed(es, n);
      TellsBefore(es, n);
      NeedSplit(es, n);
    }
  }

  lemma EntrySize(es: seq<Entry>, e: Entry)
    requires EntryOk(e)
    ensures |EntryBytes(es, e)| ==
            FIXED_SIZE + |e.path| + |LinkOf(e.body)| + if WritesData(es, e) then RoundUp(SizeOf(e.body)) else 0
  {
    BlocksCover(SizeOf(e.body));
    Offsets();
  }

  function Sum(ws: seq<nat>): nat {
    if ws == [] then 0 else Sum(ws[..|ws| - 1]) + ws[|ws| - 1]
  }

  lemma {:induction false} SumClear(ws: seq<nat>, k: nat)
    requires k < |ws|
    ensures Sum(ws) == Sum(ws[k := 0]) + ws[k]
    decreases |ws|
  {
    var n := |ws| - 1;
    if k == n {
      assert ws[k := 0][..n] == ws[..n];
    } else {
      SumClear(ws[..n], k);
      assert ws[k := 0][..n] == ws[..n][k := 0];
    }
  }

  /** Needs housed in distinct places, each large enough, are covered by what the places cost. */
  lemma {:induction false} Housed(needs: seq<nat>, home: seq<nat>, costs: seq<nat>)
    requires |home| == |needs|
    requires forall i :: 0 <= i < |needs| && needs[i] > 0 ==> home[i] < |costs| && needs[i] <= costs[home[i]]
    requires forall i, j :: 0 <= i < j < |needs| && needs[i] > 0 && needs[j] > 0 ==> home[i] != home[j]
    ensures Sum(needs) <= Sum(costs)
    decreases |needs|
  {
    if needs != [] {
      var n := |needs| - 1;
      if needs[n] == 0 {
        Housed(needs[..n], home[..n], costs);
      } else {
        SumClear(costs, home[n]);
        Housed(needs[..n], home[..n], costs[home[n] := 0]);
      }
    }
  }

  lemma {:induction false} NamesSum(names: seq<Name>, ws: seq<nat>)
    requires |ws| == |names| && forall k :: 0 <= k < |ws| ==> ws[k] == FIXED_SIZE + |names[k].path|
    ensures NamesCost(names) == Sum(ws)
    decreases |names|
  {
    if names != [] { NamesSum(names[..|names| - 1], ws[..|ws| - 1]); }
  }

  lemma {:induction false} InodesSum(inodes: seq<seq<byte>>, ws: seq<nat>)
    requires |ws| == |inodes| && forall k :: 0 <= k < |ws| ==> ws[k] == RoundUp(|inodes[k]|)
    ensures InodesCost(inodes) == Sum(ws)
    decreases |inodes|
  {
    if inodes != [] { InodesSum(inodes[..|inodes| - 1], ws[..|ws| - 1]); }
  }

  lemma {:induction false} TargetsSum(targets: seq<seq<byte>>, ws: seq<nat>)
    requires |ws| == |targets| && forall k :: 0 <= k < |ws| ==> ws[k] == |targets[k]|
    ensures TargetsCost(targets) == Sum(ws)
    decreases |targets|
  {
    if targets != [] { TargetsSum(targets[..|targets| - 1], ws[..|ws| - 1]); }
  }

  lemma {:induction false} PathsSum(es: seq<Entry>, ws: seq<nat>)
    requires |ws| == |es| && forall k :: 0 <= k < |ws| ==> ws[k] == FIXED_SIZE + |es[k].path|
    ensures PathsNeed(es) == Sum(ws)
    decreases |es|
  {
    if es != [] { PathsSum(es[..|es| - 1], ws[..|ws| - 1]); }
  }

  lemma {:induction false} LinksSum(es: seq<Entry>, ws: seq<nat>)
    requires |ws| == |es| && forall k :: 0 <= k < |ws| ==> ws[k] == |LinkOf(es[k].body)|
    ensures TargetsNeed(es) == Sum(ws)
    decreases |es|
  {
    if es != [] { LinksSum(es[..|es| - 1], ws[..|ws| - 1]); }
  }

  lemma {:induction false} DataSum(es: seq<Entry>, ws: seq<nat>)
    requires |ws| == |es| && forall k :: 0 <= k < |ws| ==> ws[k] == DataNeedAt(es, k)
    ensures DataNeed(es) == Sum(ws)
    decreases |es|
  {
    if es != [] {
      var n := |es| - 1;
      forall k | 0 <= k < n ensures DataNeedAt(es[..n], k) == DataNeedAt(es, k) {
        assert es[..n][..k] == es[..k];
      }
      DataSum(es[..n], ws[..n]);
    }
  }

  function IndexOf(names: seq<Name>, path: Path): (k: nat)
    ensures Find(names, path).Found? && path != [] ==> k < |names| && names[k].path == path
  {
    if names == [] then 0
    else if names[|names| - 1].path == path then |names| - 1
    else IndexOf(names[..|names| - 1], path)
  }

  lemma PathsHoused(names: seq<Name>, es: seq<Entry>, needs: seq<nat>, home: seq<nat>, costs: seq<nat>)
    requires DistinctPaths(es) && |needs| == |home| == |es| && |costs| == |names|
    requires forall i :: 0 <= i < |es| ==> home[i] < |names| && names[home[i]].path == es[i].path
    requires forall i :: 0 <= i < |es| ==> needs[i] == FIXED_SIZE + |es[i].path|
    requires forall k :: 0 <= k < |costs| ==> costs[k] == FIXED_SIZE + |names[k].path|
    ensures PathsNeed(es) <= NamesCost(names)
  {
    Housed(needs, home, costs);
    PathsSum(es, needs);
    NamesSum(names, costs);
  }

  lemma PathsCovered(fs: FS, es: seq<Entry>)
    requires Mirrors(fs, es) && DistinctPaths(es) && forall i :: 0 <= i < |es| ==> es[i].path != []
    ensures PathsNeed(es) <= NamesCost(fs.names)
  {
    var needs := seq(|es|, i requires 0 <= i < |es| => FIXED_SIZE + |es[i].path|);
    var home := seq(|es|, i requires 0 <= i < |es| => IndexOf(fs.names, es[i].path));
    var costs := seq(|fs.names|, k requires 0 <= k < |fs.names| => FIXED_SIZE + |fs.names[k].path|);
    forall i | 0 <= i < |es| ensures home[i] < |fs.names| && fs.names[home[i]].path == es[i].path {
      assert Shows(fs, es[i]);
    }
    PathsHoused(fs.names, es, needs, home, costs);
  }

  function ObjectOf(names: seq<Name>, path: Path): nat {
    match Find(names, path)
    case Found(RegObj(id)) => id
    case Found(LinkObj(id)) => id
    case _ => 0
  }

  lemma DataCovered(fs: FS, es: seq<Entry>)
    requires Mirrors(fs, es)
    ensures DataNeed(es) <= InodesCost(fs.inodes)
  {
    var needs := seq(|es|, i requires 0 <= i < |es| => DataNeedAt(es, i));
    var home := seq(|es|, i requires 0 <= i < |es| => ObjectOf(fs.names, es[i].path));
    var costs := seq(|fs.inodes|, k requires 0 <= k < |fs.inodes| => RoundUp(|fs.inodes[k]|));
    forall i | 0 <= i < |es| && needs[i] > 0
      ensures home[i] < |costs| && needs[i] <= costs[home[i]] && Find(fs.names, es[i].path) == Found(RegObj(home[i]))
    {
      assert Shows(fs, es[i]);
    }
    forall i, j | 0 <= i < j < |es| && needs[i] > 0 && needs[j] > 0 ensures home[i] != home[j] {
      assert SharesRight(fs, es[i], es[j]);
      assert es[..j][i] == es[i];
    }
    Housed(needs, home, costs);
    DataSum(es, needs);
    InodesSum(fs.inodes, costs);
  }

  lemma TargetsCovered(fs: FS, es: seq<Entry>)
    requires Mirrors(fs, es)
    ensures TargetsNeed(es) <= TargetsCost(fs.targets)
  {
    var needs := seq(|es|, i requires 0 <= i < |es| => |LinkOf(es[i].body)|);
    var home := seq(|es|, i requires 0 <= i < |es| => ObjectOf(fs.names, es[i].path));
    var costs := seq(|fs.targets|, k requires 0 <= k < |fs.targets| => |fs.targets[k]|);
    forall i | 0 <= i < |es| && needs[i] > 0
      ensures home[i] < |costs| && needs[i] <= costs[home[i]] && Find(fs.names, es[i].path) == Found(LinkObj(home[i]))
    {
      assert Shows(fs, es[i]);
    }
    forall i, j | 0 <= i < j < |es| && needs[i] > 0 && needs[j] > 0 ensures home[i] != home[j] {
      assert SharesRight(fs, es[i], es[j]);
    }
    Housed(needs, home, costs);
    LinksSum(es, needs);
    TargetsSum(fs.targets, costs);
  }

  /** A target that mirrors the source costs at least what the source needs. */
  lemma MirrorCovers(fs: FS, es: seq<Entry>)
    requires Mirrors(fs, es) && DistinctPaths(es) && forall i :: 0 <= i < |es| ==> es[i].path != []
    ensures Need(es) <= Cost(fs)
  {
    PathsCovered(fs, es);
    TargetsCovered(fs, es);
    DataCovered(fs, es);
  }

  /** Whatever the unpacker does, a mirror is out of reach once two files were confused. */
  lemma CountsNecessary(es: seq<Entry>)
    requires Snapshot(es) && !CountsTellFilesApart(es)
    ensures !Mirrors(Extracted(Packed(es), Start()).fs, es)
  {
    var st := Extracted(Packed(es), Start());
    Conservation(Packed(es), Start());
    ArchiveAtMostNeed(es);
    if Mirrors(st.fs, es) {
      MirrorCovers(st.fs, es);
      assert false;
    }
  }

  // ---------- the condition is necessary: inode numbers ----------

  lemma {:induction false} FirstClash(es: seq<Entry>, n: nat) returns (k: nat)
    requires n <= |es| && exists i :: 0 <= i < n && !InodeTells(es, i)
    ensures k < n && !InodeTells(es, k) && forall i :: 0 <= i < k ==> InodeTells(es, i)
    decreases n
  {
    if i :| 0 <= i < n - 1 && !InodeTells(es, i) {
      k := FirstClash(es, n - 1);
    } else {
      k := n - 1;
    }
  }

  /** The unpacker links e to the file it knows under e's inode number, which is another file. */
  lemma ClashLinks(file: seq<byte>, read: State, es: seq<Entry>, e: Entry, j: nat)
    requires InStep(read.(pos := |Packed(es)|), es) && Follows(es, e) && read.pos <= |file|
    requires MultiLinked(e) && e.st.ino in read.links
    requires j < |es| && es[j].path == read.links[e.st.ino] && SameInode(es[j], e)
    ensures var names := Restore(file, read, RecordOf(e)).fs.names;
      Find(names, e.path).Found? && Find(names, e.path) == Find(names, es[j].path)
  {
    ParentThere(read.fs, es, e);
    assert Shows(read.fs, es[j]);
    var n := Name(e.path, Find(read.fs.names, es[j].path).obj);
    FindAppend(read.fs.names, n, e.path);
    FindAppend(read.fs.names, n, es[j].path);
  }

  /** At the first clash, the known name under e's inode number belongs to another file. */
  lemma ClashName(links: map<nat, Path>, es: seq<Entry>, k: nat) returns (j: nat)
    requires k < |es| && LinksTrack(links, es[..k]) && !InodeTells(es, k)
    requires forall i :: 0 <= i < k ==> InodeTells(es, i)
    ensures MultiLinked(es[k]) && es[k].st.ino in links
    ensures j < k && es[j].path == links[es[k].st.ino] && SameInode(es[j], es[k]) && !SameFile(es[j], es[k])
  {
    var e := es[k];
    var c :| 0 <= c < k && SameInode(es[c], e) && !SameFile(es[c], e);
    assert es[..k][c] == es[c];
    j :| 0 <= j < k && MultiLinked(es[..k][j]) && es[..k][j].st.ino == e.st.ino && es[..k][j].path == links[e.st.ino];
    if j < c { assert InodeTells(es, c); }
    if c < j { assert InodeTells(es, j); }
  }

  lemma SharedForever(es: seq<Entry>, k: nat, j: nat, st: State)
    requires j < k < |es| && SameInode(es[j], es[k]) && !SameFile(es[j], es[k]) && st.pos <= |Packed(es)|
    requires Find(st.fs.names, es[k].path).Found? && Find(st.fs.names, es[k].path) == Find(st.fs.names, es[j].path)
    ensures !Mirrors(Extracted(Packed(es), st).fs, es)
  {
    NamesStay(Packed(es), st, es[k].path);
    NamesStay(Packed(es), st, es[j].path);
    assert !SharesRight(Extracted(Packed(es), st).fs, es[j], es[k]);
  }

  /** The iteration at a clash. */
  lemma ClashIteration(file: seq<byte>, before: seq<Entry>, e: Entry, st: State, j: nat) returns (st': State)
    requires InStep(st, before) && Next(file, before, e)
    requires MultiLinked(e) && e.st.ino in st.links
    requires j < |before| && before[j].path == st.links[e.st.ino] && SameInode(before[j], e)
    ensures st.pos <= |file| && st'.pos <= |file| && Extracted(file, st) == Extracted(file, st')
    ensures Find(st'.fs.names, e.path).Found? && Find(st'.fs.names, e.path) == Find(st'.fs.names, before[j].path)
  {
    var at := ParseEntry(file, st.pos, before, e);
    var read := st.(pos := at);
    ClashLinks(file, read, before, e, j);
    st' := Restore(file, read, RecordOf(e));
    ExtractedStep(file, st, RecordOf(e), read);
  }

  lemma InodesNecessary(es: seq<Entry>)
    requires Snapshot(es) && CountsTellFilesApart(es) && !InodesTellFilesApart(es)
    ensures !Mirrors(Extracted(Packed(es), Start()).fs, es)
  {
    var file := Packed(es);
    var k := FirstClash(es, |es|);
    var st := ReachesInStep(file, es, k);
    ClashSpoils(es, k, st);
  }

  lemma ClashSpoils(es: seq<Entry>, k: nat, st: State)
    requires Snapshot(es) && k < |es| && InStep(st, es[..k]) && st.pos <= |Packed(es)|
    requires !InodeTells(es, k) && forall i :: 0 <= i < k ==> InodeTells(es, i)
    ensures !Mirrors(Extracted(Packed(es), st).fs, es)
  {
    var j := ClashName(st.links, es, k);
    EntryNext(es, k);
    var st' := ClashIteration(Packed(es), es[..k], es[k], st, j);
    SharedForever(es, k, j, st');
  }

  /** Packing a source and unpacking the archive recreates it -- paths, kinds, contents, link targets and
      hard-link classes of regular files -- exactly when no file is mistaken for a hard link of another one, by
      its link count or by its inode number; and then the unpacker collects no error and reads the archive to
      its last byte. */
  lemma UnpackMirrorsIff(es: seq<Entry>)
    requires Snapshot(es)
    ensures var st := Extracted(Packed(es), Start());
      && (Mirrors(st.fs, es) <==> CountsTellFilesApart(es) && InodesTellFilesApart(es))
      && (CountsTellFilesApart(es) && InodesTellFilesApart(es) ==> st.errs == 0 && !st.threw && st.pos == |Packed(es)|)
  {
    if !CountsTellFilesApart(es) {
      CountsNecessary(es);
    } else if !InodesTellFilesApart(es) {
      InodesNecessary(es);
    } else {
      ConditionSuffices(es);
    }
  }

  // ---------- where the first confused file escapes ----------

  /** Entry k is the first file taken for a hard link of another: its data is missing from the archive. */
  ghost predicate FirstConfused(es: seq<Entry>, k: nat) {
    k < |es| && ToldApart(es, k) && InodeTells(es, k) && !CountTells(es, k)
  }

  /** The unpacker copies what follows the header as the data of the confused file. */
  lemma ConfusedCopies(file: seq<byte>, read: State, es: seq<Entry>, e: Entry, left: nat)
    requires InStep(read.(pos := |Packed(es)|), es) && Follows(es, e) && InodeFits(es, e) && read.pos + left == |file|
    requires FirstOfFile(es, e)
    ensures var size := SizeOf(e.body);
      Escapes(file, read, RecordOf(e)) <==> CutShort(left, BlocksOf(size), PaddingOf(size))
  {
    ParentThere(read.fs, es, e);
    if MultiLinked(e) && e.st.ino in read.links {
      var j := MetBefore(read.links, es, e);
      assert false;
    }
  }

  ghost predicate Confused(file: seq<byte>, before: seq<Entry>, e: Entry) {
    Next(file, before, e) && InodeFits(before, e) && FirstOfFile(before, e) && !WritesData(before, e)
  }

  lemma EntryConfused(es: seq<Entry>, k: nat)
    requires Snapshot(es) && FirstConfused(es, k)
    ensures Confused(Packed(es), es[..k], es[k])
  {
    TellsAt(es, k);
    EntryNext(es, k);
  }

  lemma ConfusedHeader(file: seq<byte>, start: nat, before: seq<Entry>, e: Entry, pos: nat)
    requires Confused(file, before, e) && start == |Packed(before)| && pos == start + |EntryBytes(before, e)|
    ensures start <= |file| && Parse(file, start) == Got(RecordOf(e), pos) && pos <= |file|
  {
    var at := ParseEntry(file, start, before, e);
    assert DataOf(before, e) == [];
  }

  /** The iteration over a confused file: nothing follows its header, and `left` bytes are left behind it. */
  lemma ConfusedIteration(file: seq<byte>, before: seq<Entry>, e: Entry, st: State, pos: nat, left: nat)
    returns (st': State)
    requires InStep(st, before) && Confused(file, before, e)
    requires pos == |Packed(before)| + |EntryBytes(before, e)| && pos + left == |file|
    ensures st.pos <= |file| && st'.pos <= |file| <= st'.pos + left && Extracted(file, st) == Extracted(file, st')
    ensures var size := SizeOf(e.body); st'.threw <==> CutShort(left, BlocksOf(size), PaddingOf(size))
  {
    ConfusedHeader(file, st.pos, before, e, pos);
    var read := st.(pos := pos);
    ConfusedCopies(file, read, before, e, left);
    RestoreThrowsIff(file, read, RecordOf(e));
    st' := Restore(file, read, RecordOf(e));
    ExtractedStep(file, st, RecordOf(e), read);
  }

  /** The bytes of the archive behind entry k. */
  ghost function BytesBehind(es: seq<Entry>, k: nat): nat
    requires k < |es|
  {
    PackedGrows(es, k + 1);
    |Packed(es)| - |Packed(es[..k + 1])|
  }

  lemma BehindEntry(es: seq<Entry>, k: nat)
    requires k < |es|
    ensures |Packed(es[..k])| + |EntryBytes(es[..k], es[k])| == |Packed(es)| - BytesBehind(es, k)
  {
    OneMorePacked(es, k);
  }

  lemma ConfusedStep(es: seq<Entry>, k: nat) returns (st': State)
    requires Snapshot(es) && FirstConfused(es, k)
    ensures st'.pos <= |Packed(es)| && Extracted(Packed(es), Start()) == Extracted(Packed(es), st')
    ensures |Packed(es)| <= st'.pos + BytesBehind(es, k)
    ensures var size := SizeOf(es[k].body); st'.threw <==> CutShort(BytesBehind(es, k), BlocksOf(size), PaddingOf(size))
  {
    var file, behind := Packed(es), BytesBehind(es, k);
    var st := ReachesInStep(file, es, k);
    EntryConfused(es, k);
    BehindEntry(es, k);
    st' := ConfusedIteration(file, es[..k], es[k], st, |file| - behind, behind);
  }

  /** An exception escapes at the first confused file when the rest of the archive is too short for its data. */
  lemma FirstConfusedEscapes(es: seq<Entry>, k: nat)
    requires Snapshot(es) && FirstConfused(es, k)
    requires var size := SizeOf(es[k].body); CutShort(BytesBehind(es, k), BlocksOf(size), PaddingOf(size))
    ensures Extracted(Packed(es), Start()).threw
  {
    var st' := ConfusedStep(es, k);
    ExtractedStops(Packed(es), st');
  }

  lemma NothingBehindLast(es: seq<Entry>, k: nat)
    requires k + 1 == |es|
    ensures BytesBehind(es, k) == 0
  {
    assert es[..k + 1] == es;
  }

  lemma CutShortOfAll(size: nat)
    requires size > 0
    ensures CutShort(0, BlocksOf(size), PaddingOf(size)) <==> size % 512 !in {0, 511}
  {
  }

  lemma EndsAfter(file: seq<byte>, st: State, threw: bool)
    requires |file| <= st.pos <= |file| && st.threw == threw
    ensures Extracted(file, st).threw == threw
  {
  }

  /** When the last entry is the only confused one, an exception escapes exactly if its size is neither a
      multiple of 512 nor one byte less than one. */
  lemma LastConfusedEscapesIff(es: seq<Entry>, k: nat, size: nat)
    requires Snapshot(es) && k + 1 == |es| && FirstConfused(es, k) && size == SizeOf(es[k].body)
    ensures Extracted(Packed(es), Start()).threw <==> size % 512 !in {0, 511}
  {
    var st' := ConfusedStep(es, k);
    NothingBehindLast(es, k);
    CutShortOfAll(size);
    EndsAfter(Packed(es), st', size % 512 !in {0, 511});
  }
}
