// The target directory and what the unpacker does to it, step by step, for any archive.
module Target {
  import opened Bytes
  import opened Posix
  import opened Headers
  import opened Archive

  // ---------- a file system: names point to objects, regular files to inodes ----------

  datatype Obj = DirObj | RegObj(id: nat) | FifoObj | LinkObj(id: nat)

  datatype Name = Name(path: Path, obj: Obj)

  /** Names in creation order; nothing is ever removed. Paths are relative to the target directory.
      Regular contents and symlink targets live in tables, so that names can share them. */
  datatype FS = FS(names: seq<Name>, inodes: seq<seq<byte>>, targets: seq<seq<byte>>)

  datatype Lookup = Absent | Found(obj: Obj)

  /** What a path names; the empty one names the target directory itself. */
  function Find(names: seq<Name>, path: Path): (r: Lookup)
  {
    if names == [] then (if path == [] then Found(DirObj) else Absent)
    else if names[|names| - 1].path == path then Found(names[|names| - 1].obj)
    else Find(names[..|names| - 1], path)
  }

  /** Name k is the last one for its path. */
  predicate LastNamed(names: seq<Name>, path: Path, o: Obj, k: nat) {
    k < |names| && names[k] == Name(path, o) && forall j :: k < j < |names| ==> names[j].path != path
  }

  predicate NotNamed(names: seq<Name>, path: Path) {
    forall k :: 0 <= k < |names| ==> names[k].path != path
  }

  /** A path means the last object given that name; the empty one, if never given, the target directory. */
  lemma {:induction false} FindIff(names: seq<Name>, path: Path, o: Obj)
    ensures Find(names, path) == Found(o) <==>
      (exists k :: LastNamed(names, path, o, k)) || (path == [] && o == DirObj && NotNamed(names, path))
    decreases |names|
  {
    if names != [] {
      var n := |names| - 1;
      FindIff(names[..n], path, o);
      if names[n].path == path {
        if names[n].obj == o { assert LastNamed(names, path, o, n); }
      } else {
        if k :| LastNamed(names[..n], path, o, k) { assert LastNamed(names, path, o, k); }
        if k :| LastNamed(names, path, o, k) { assert LastNamed(names[..n], path, o, k); }
      }
    }
  }

  /** Everything before the last slash, if there is one. */
  function ParentOf(path: Path): (r: (bool, Path))
  {
    if path == [] then (false, [])
    else if path[|path| - 1] == SLASH then (true, path[..|path| - 1])
    else ParentOf(path[..|path| - 1])
  }

  predicate ParentExists(names: seq<Name>, path: Path) {
    var p := ParentOf(path);
    !p.0 || Find(names, p.1) == Found(DirObj)
  }

  /** mkdir, mkfifo, symlink and link need a free name in an existing directory. */
  predicate CanCreate(names: seq<Name>, path: Path) {
    Find(names, path) == Absent && ParentExists(names, path)
  }

  // ---------- copying data blocks out of the archive ----------

  /** Bytes written, new archive offset, and whether a CopyException escaped. */
  datatype Copied = Copied(bytes: seq<byte>, pos: nat, threw: bool)

  /** Utils::Copy with padding_on = 0: the last block loses its padding. A negative length is passed to
      write(), which fails with -1; only a length of exactly -1 is then not noticed. */
  function CopyOut(file: seq<byte>, pos: nat, blocks: nat, padding: nat): (c: Copied)
    requires pos <= |file|
    ensures pos <= c.pos <= |file| && |c.bytes| <= c.pos - pos
    decreases blocks
  {
    if blocks == 0 then Copied([], pos, false)
    else
      var block := Chunk(file, pos, 512);
      if blocks > 1 then
        var rest := CopyOut(file, pos + |block|, blocks - 1, padding);
        Copied(block + rest.bytes, rest.pos, rest.threw)
      else if padding <= |block| then Copied(block[..|block| - padding], pos + |block|, false)
      else Copied([], pos + |block|, padding != |block| + 1)
  }

  /** What is read is copied in one piece; the padding is taken off the end, but never more than the last block. */
  predicate InOrder(c: Copied, all: seq<byte>, pos: nat, blocks: nat, padding: nat) {
    c.pos == pos + |all| && c.bytes == all[..|all| - Min(padding, LastOf(|all|, blocks))]
  }

  lemma {:induction false} CopiesInOrder(file: seq<byte>, pos: nat, blocks: nat, padding: nat)
    requires pos <= |file|
    ensures InOrder(CopyOut(file, pos, blocks, padding), Chunk(file, pos, 512 * blocks), pos, blocks, padding)
    decreases blocks
  {
    if blocks > 1 {
      var at := pos + |Chunk(file, pos, 512)|;
      CopiesInOrder(file, at, blocks - 1, padding);
      CopiesNext(file, pos, at, blocks, padding, 512 * (blocks - 1), 512 * blocks);
    } else if blocks == 1 {
      CopiesOne(file, pos, padding);
    }
  }

  lemma CopiesOne(file: seq<byte>, pos: nat, padding: nat)
    requires pos <= |file|
    ensures InOrder(CopyOut(file, pos, 1, padding), Chunk(file, pos, 512), pos, 1, padding)
  {
  }

  lemma CopiesNext(file: seq<byte>, pos: nat, at: nat, blocks: nat, padding: nat, n: nat, total: nat)
    requires pos <= |file| && blocks > 1 && at == pos + |Chunk(file, pos, 512)| && total == 512 + n
    requires InOrder(CopyOut(file, at, blocks - 1, padding), Chunk(file, at, n), at, blocks - 1, padding)
    ensures InOrder(CopyOut(file, pos, blocks, padding), Chunk(file, pos, total), pos, blocks, padding)
  {
    var c := CopyOut(file, at, blocks - 1, padding);
    var block, rest := Chunk(file, pos, 512), Chunk(file, at, n);
    CopyFirst(file, pos, blocks, padding, block, c);
    ChunkSplits(file, pos, 512, n, total);
    NextBlock(c, CopyOut(file, pos, blocks, padding), block, rest, Chunk(file, pos, total), pos, at, blocks, padding);
  }

  lemma CopyFirst(file: seq<byte>, pos: nat, blocks: nat, padding: nat, block: seq<byte>, c: Copied)
    requires pos <= |file| && blocks > 1 && block == Chunk(file, pos, 512)
    requires c == CopyOut(file, pos + |block|, blocks - 1, padding)
    ensures CopyOut(file, pos, blocks, padding) == Copied(block + c.bytes, c.pos, c.threw)
  {
  }

  lemma NextBlock(c: Copied, whole: Copied, block: seq<byte>, rest: seq<byte>, all: seq<byte>,
                  pos: nat, at: nat, blocks: nat, padding: nat)
    requires all == block + rest && whole == Copied(block + c.bytes, c.pos, c.threw)
    requires blocks > 1 && |block| <= 512 && (|block| < 512 ==> rest == []) && at == pos + |block|
    requires InOrder(c, rest, at, blocks - 1, padding)
    ensures InOrder(whole, all, pos, blocks, padding)
  {
    PrefixBehind(block, rest, |rest| - Min(padding, LastOf(|rest|, blocks - 1)));
  }

  /** How many of `size` bytes are in the last of so many blocks. */
  function LastOf(size: nat, blocks: nat): (last: nat)
    ensures last <= size
  {
    if blocks > 0 && size > 512 * (blocks - 1) then size - 512 * (blocks - 1) else 0
  }

  lemma PrefixBehind(a: seq<byte>, b: seq<byte>, n: nat)
    requires n <= |b|
    ensures (a + b)[..|a| + n] == a + b[..n]
  {
  }

  lemma ChunkSplits(file: seq<byte>, pos: nat, n: nat, m: nat, total: nat)
    requires pos <= |file| && total == n + m
    ensures var a := Chunk(file, pos, n);
      && Chunk(file, pos, total) == a + Chunk(file, pos + |a|, m)
      && (|a| < n ==> Chunk(file, pos + |a|, m) == [])
  {
  }

  // ---------- one archive entry ----------

  /** `errs` counts collected exceptions; `threw` says that one was not caught. */
  datatype State = State(fs: FS, links: map<nat, Path>, pos: nat, errs: nat, threw: bool)

  function WithError(st: State): State {
    st.(errs := st.errs + 1)
  }

  function CreateName(st: State, path: Path, obj: Obj): State {
    if CanCreate(st.fs.names, path) then st.(fs := st.fs.(names := st.fs.names + [Name(path, obj)]))
    else WithError(st)
  }

  /** symlink(target, path): fails like the others, and for an empty target. */
  function CreateSymlink(st: State, path: Path, target: seq<byte>): State {
    if target != [] && CanCreate(st.fs.names, path) then
      st.(fs := FS(st.fs.names + [Name(path, LinkObj(|st.fs.targets|))], st.fs.inodes, st.fs.targets + [target]))
    else WithError(st)
  }

  /** link(from, to): both names then point to the same inode. */
  function LinkName(st: State, from: Path, to: Path): State {
    var source := Find(st.fs.names, from);
    if source.Found? && !source.obj.DirObj? then CreateName(st, to, source.obj) else WithError(st)
  }

  /** open with O_CREAT | O_TRUNC, then Copy: a new inode, or an existing file's inode overwritten. */
  function WriteFile(file: seq<byte>, st: State, path: Path, blocks: nat, padding: nat): (st': State)
    requires st.pos <= |file|
    ensures st.pos <= st'.pos <= |file|
  {
    var at := Find(st.fs.names, path);
    if at.Found? then
      if at.obj.RegObj? && at.obj.id < |st.fs.inodes| then
        var c := CopyOut(file, st.pos, blocks, padding);
        st.(fs := st.fs.(inodes := st.fs.inodes[at.obj.id := c.bytes]), pos := c.pos, threw := c.threw)
      else WithError(st)
    else if ParentExists(st.fs.names, path) then
      var c := CopyOut(file, st.pos, blocks, padding);
      st.(fs := FS(st.fs.names + [Name(path, RegObj(|st.fs.inodes|))], st.fs.inodes + [c.bytes], st.fs.targets),
          pos := c.pos, threw := c.threw)
    else WithError(st)
  }

  function RestoreRegular(file: seq<byte>, st: State, r: Record): (st': State)
    requires st.pos <= |file|
    ensures st.pos <= st'.pos <= |file|
  {
    if r.nlink > 1 && r.ino in st.links then LinkName(st, st.links[r.ino], r.path)
    else
      var noted := if r.nlink > 1 then st.(links := st.links[r.ino := r.path]) else st;
      WriteFile(file, noted, r.path, r.blocks, r.padding)
  }

  function Restore(file: seq<byte>, st: State, r: Record): (st': State)
    requires st.pos <= |file|
    ensures st.pos <= st'.pos <= |file|
  {
    var kind := Kind(r.mode);
    if kind == S_IFDIR then CreateName(st, r.path, DirObj)
    else if kind == S_IFREG then RestoreRegular(file, st, r)
    else if kind == S_IFIFO then CreateName(st, r.path, FifoObj)
    else if kind == S_IFLNK then CreateSymlink(st, r.path, r.link)
    else WithError(st)
  }

  /** The Extract loop, on any bytes whatsoever. */
  function Extracted(file: seq<byte>, st: State): (st': State)
    requires st.pos <= |file|
    ensures st'.pos <= |file|
    decreases |file| - st.pos
  {
    if st.threw then st
    else
      match Parse(file, st.pos)
      case End => st
      case Bad => st
      case Got(r, next) => Extracted(file, Restore(file, st.(pos := next), r))
  }

  /** `read` is st with the offset behind the header r found at st's offset. */
  lemma ExtractedStep(file: seq<byte>, st: State, r: Record, read: State)
    requires st.pos <= |file| && !st.threw && Parse(file, st.pos) == Got(r, read.pos) && read == st.(pos := read.pos)
    ensures read.pos <= |file| && Extracted(file, st) == Extracted(file, Restore(file, read, r))
  {
  }

  lemma ExtractedStops(file: seq<byte>, st: State)
    requires st.pos <= |file| && (st.threw || !Parse(file, st.pos).Got?)
    ensures Extracted(file, st) == st
  {
  }

  /** The unpacker before it reads the archive: no inodes noted, no errors. */
  function StartIn(fs: FS): State {
    State(fs, map[], 0, 0, false)
  }

  /** ... with an empty target directory. */
  function Start(): State {
    StartIn(FS([], [], []))
  }

  // ---------- when an exception escapes ----------

  /** Whether open(path, O_CREAT | O_TRUNC) succeeds. */
  predicate Opens(fs: FS, path: Path) {
    var at := Find(fs.names, path);
    if at.Found? then at.obj.RegObj? && at.obj.id < |fs.inodes| else ParentExists(fs.names, path)
  }

  /** With `left` bytes to read: the last block comes out shorter than its padding, and not by one byte. */
  predicate CutShort(left: nat, blocks: nat, padding: nat) {
    blocks > 0
    && var short := if left <= 512 * (blocks - 1) then 0 else Min(512, left - 512 * (blocks - 1));
      padding > short && padding != short + 1
  }

  /** Copy throws exactly when the archive cuts the file short. */
  lemma {:induction false} CopyThrowsIff(file: seq<byte>, pos: nat, blocks: nat, padding: nat)
    requires pos <= |file|
    ensures CopyOut(file, pos, blocks, padding).threw <==> CutShort(|file| - pos, blocks, padding)
    decreases blocks
  {
    if blocks > 1 {
      CopyThrowsIff(file, pos + |Chunk(file, pos, 512)|, blocks - 1, padding);
    }
  }

  /** Record r, read when the unpacker was in state `read`, makes an exception escape: it is a regular file, not
      a known inode, its target can be opened, and its data is cut short. */
  predicate Escapes(file: seq<byte>, read: State, r: Record) {
    && read.pos <= |file| && Kind(r.mode) == S_IFREG && !(r.nlink > 1 && r.ino in read.links)
    && Opens(read.fs, r.path) && CutShort(|file| - read.pos, r.blocks, r.padding)
  }

  lemma RestoreThrowsIff(file: seq<byte>, read: State, r: Record)
    requires read.pos <= |file| && !read.threw
    ensures Restore(file, read, r).threw <==> Escapes(file, read, r)
  {
    CopyThrowsIff(file, read.pos, r.blocks, r.padding);
  }

  datatype Visit = Visit(read: State, r: Record)

  /** Every header the loop reads, with the state it is read in. */
  function Visits(file: seq<byte>, st: State): seq<Visit>
    requires st.pos <= |file|
    decreases |file| - st.pos
  {
    if st.threw then []
    else
      match Parse(file, st.pos)
      case End => []
      case Bad => []
      case Got(r, next) =>
        var read := st.(pos := next);
        [Visit(read, r)] + Visits(file, Restore(file, read, r))
  }

  ghost predicate SomeEscapes(file: seq<byte>, vs: seq<Visit>) {
    exists i :: 0 <= i < |vs| && Escapes(file, vs[i].read, vs[i].r)
  }

  /** On any bytes and any target: an exception escapes exactly when one of the visited records makes it. */
  lemma {:induction false} EscapesIff(file: seq<byte>, st: State)
    requires st.pos <= |file| && !st.threw
    ensures Extracted(file, st).threw <==> SomeEscapes(file, Visits(file, st))
    decreases |file| - st.pos
  {
    match Parse(file, st.pos)
    case End =>
    case Bad =>
    case Got(r, next) =>
      var read := st.(pos := next);
      var st' := Restore(file, read, r);
      RestoreThrowsIff(file, read, r);
      FirstOrLater(file, Visit(read, r), Visits(file, st'));
      if !st'.threw { EscapesIff(file, st'); }
  }

  lemma FirstOrLater(file: seq<byte>, v: Visit, vs: seq<Visit>)
    ensures SomeEscapes(file, [v] + vs) <==> Escapes(file, v.read, v.r) || SomeEscapes(file, vs)
  {
    var all := [v] + vs;
    if i :| 0 <= i < |all| && Escapes(file, all[i].read, all[i].r) {
      if i > 0 { assert all[i] == vs[i - 1]; }
    }
    if Escapes(file, v.read, v.r) { assert all[0] == v; }
    if i :| 0 <= i < |vs| && Escapes(file, vs[i].read, vs[i].r) { assert all[i + 1] == vs[i]; }
  }

  // ---------- when an error is collected ----------

  /** Record r, read when the unpacker was in state `read`, cannot be restored: a name it has to create is taken or
      has no directory to go to, a symlink has no target, the file to link to is not there or is a directory,
      a file cannot be opened, or the kind is none that is archived. */
  predicate Fails(read: State, r: Record) {
    var kind, names := Kind(r.mode), read.fs.names;
    if kind == S_IFDIR || kind == S_IFIFO then !CanCreate(names, r.path)
    else if kind == S_IFLNK then r.link == [] || !CanCreate(names, r.path)
    else if kind != S_IFREG then true
    else if r.nlink > 1 && r.ino in read.links then
      var source := Find(names, read.links[r.ino]);
      source.Absent? || source.obj.DirObj? || !CanCreate(names, r.path)
    else !Opens(read.fs, r.path)
  }

  function Failures(vs: seq<Visit>): nat {
    if vs == [] then 0 else (if Fails(vs[0].read, vs[0].r) then 1 else 0) + Failures(vs[1..])
  }

  ghost predicate SomeFails(vs: seq<Visit>) {
    exists i :: 0 <= i < |vs| && Fails(vs[i].read, vs[i].r)
  }

  /** A record that fails is counted and restores nothing; one that does not fail is not counted. */
  lemma RestoreFailsIff(file: seq<byte>, read: State, r: Record)
    requires read.pos <= |file|
    ensures var st' := Restore(file, read, r);
      && st'.errs == read.errs + (if Fails(read, r) then 1 else 0)
      && (Fails(read, r) ==> st'.fs == read.fs && st'.pos == read.pos && st'.threw == read.threw)
  {
  }

  /** What a record that does not fail leaves at its path: a directory, a FIFO, a symlink with the stored target, the
      object of the known name, or a regular file with the copied bytes; and an inode met first is noted. */
  lemma RestoreEffect(file: seq<byte>, read: State, r: Record)
    requires read.pos <= |file| && !Fails(read, r)
    ensures var st', kind := Restore(file, read, r), Kind(r.mode);
      var at := Find(st'.fs.names, r.path);
      var known := r.nlink > 1 && r.ino in read.links;
      && (kind == S_IFDIR ==> at == Found(DirObj))
      && (kind == S_IFIFO ==> at == Found(FifoObj))
      && (kind == S_IFLNK ==>
            at.Found? && at.obj.LinkObj? && at.obj.id < |st'.fs.targets| && st'.fs.targets[at.obj.id] == r.link)
      && (kind == S_IFREG && known ==> at == Find(read.fs.names, read.links[r.ino]) && st'.pos == read.pos)
      && (kind == S_IFREG && !known ==>
            var c := CopyOut(file, read.pos, r.blocks, r.padding);
            && at.Found? && at.obj.RegObj? && at.obj.id < |st'.fs.inodes| && st'.fs.inodes[at.obj.id] == c.bytes
            && st'.pos == c.pos && st'.links == if r.nlink > 1 then read.links[r.ino := r.path] else read.links)
  {
  }

  /** ... and what it leaves alone: what every other path names, all other contents, and all link targets. */
  lemma RestoreFrame(file: seq<byte>, read: State, r: Record, path: Path, id: nat)
    requires read.pos <= |file| && path != r.path
    requires id < |read.fs.inodes| && Find(read.fs.names, r.path) != Found(RegObj(id))
    ensures var fs' := Restore(file, read, r).fs;
      && Find(fs'.names, path) == Find(read.fs.names, path)
      && id < |fs'.inodes| && fs'.inodes[id] == read.fs.inodes[id]
      && read.fs.targets <= fs'.targets
  {
    var names, names' := read.fs.names, Restore(file, read, r).fs.names;
    RestoreAddsIts(file, read, r);
    if names' != names {
      assert names'[..|names|] == names;
    }
  }

  /** The only name a record can add is its own. */
  lemma RestoreAddsIts(file: seq<byte>, read: State, r: Record)
    requires read.pos <= |file|
    ensures var names, names' := read.fs.names, Restore(file, read, r).fs.names;
      names' == names || (|names'| == |names| + 1 && names'[..|names|] == names && names'[|names|].path == r.path)
  {
  }

  /** On any bytes and any target: the errors collected are the visited records that fail. */
  lemma {:induction false} ErrorsAreFailures(file: seq<byte>, st: State)
    requires st.pos <= |file|
    ensures Extracted(file, st).errs == st.errs + Failures(Visits(file, st))
    decreases |file| - st.pos
  {
    if !st.threw {
      match Parse(file, st.pos)
      case End =>
      case Bad =>
      case Got(r, next) =>
        var read := st.(pos := next);
        var vs := Visits(file, Restore(file, read, r));
        RestoreFailsIff(file, read, r);
        ErrorsAreFailures(file, Restore(file, read, r));
        assert ([Visit(read, r)] + vs)[1..] == vs;
    }
  }

  lemma {:induction false} FailuresIff(vs: seq<Visit>)
    ensures Failures(vs) > 0 <==> SomeFails(vs)
    decreases |vs|
  {
    if vs != [] {
      FailuresIff(vs[1..]);
      if i :| 0 <= i < |vs| && Fails(vs[i].read, vs[i].r) {
        if i > 0 { assert vs[1..][i - 1] == vs[i]; }
      }
      if i :| 0 <= i < |vs| - 1 && Fails(vs[1..][i].read, vs[1..][i].r) { assert vs[i + 1] == vs[1..][i]; }
    }
  }

  /** Nothing is collected exactly when no visited record fails. */
  lemma NoErrorIff(file: seq<byte>, fs: FS)
    ensures Extracted(file, StartIn(fs)).errs == 0 <==> !SomeFails(Visits(file, StartIn(fs)))
  {
    ErrorsAreFailures(file, StartIn(fs));
    FailuresIff(Visits(file, StartIn(fs)));
  }

  // ---------- what is there stays there ----------

  /** At most one name is added, and it was free. */
  predicate Adds(names: seq<Name>, names': seq<Name>) {
    names' == names
    || (|names'| == |names| + 1 && names'[..|names|] == names && Find(names, names'[|names|].path) == Absent)
  }

  lemma CreateAdds(st: State, path: Path, obj: Obj, target: seq<byte>)
    ensures Adds(st.fs.names, CreateName(st, path, obj).fs.names)
    ensures Adds(st.fs.names, CreateSymlink(st, path, target).fs.names)
  {
  }

  lemma RegularAdds(file: seq<byte>, st: State, r: Record)
    requires st.pos <= |file|
    ensures Adds(st.fs.names, RestoreRegular(file, st, r).fs.names)
  {
    if r.nlink > 1 && r.ino in st.links {
      var source := Find(st.fs.names, st.links[r.ino]);
      if source.Found? { CreateAdds(st, r.path, source.obj, []); }
    }
  }

  lemma RestoreAdds(file: seq<byte>, st: State, r: Record)
    requires st.pos <= |file|
    ensures Adds(st.fs.names, Restore(file, st, r).fs.names)
  {
    CreateAdds(st, r.path, DirObj, r.link);
    CreateAdds(st, r.path, FifoObj, r.link);
    RegularAdds(file, st, r);
  }

  lemma RestoreKeepsNames(file: seq<byte>, st: State, r: Record, path: Path)
    requires st.pos <= |file| && Find(st.fs.names, path).Found?
    ensures Find(Restore(file, st, r).fs.names, path) == Find(st.fs.names, path)
  {
    RestoreAdds(file, st, r);
  }

  /** No name is ever removed or made to point elsewhere. */
  lemma {:induction false} NamesStay(file: seq<byte>, st: State, path: Path)
    requires st.pos <= |file| && Find(st.fs.names, path).Found?
    ensures Find(Extracted(file, st).fs.names, path) == Find(st.fs.names, path)
    decreases |file| - st.pos
  {
    if !st.threw {
      match Parse(file, st.pos)
      case End =>
      case Bad =>
      case Got(r, next) =>
        RestoreKeepsNames(file, st.(pos := next), r, path);
        NamesStay(file, Restore(file, st.(pos := next), r), path);
    }
  }

  // ---------- conservation: nothing is restored that was not read ----------

  function RoundUp(n: nat): nat {
    512 * BlocksOf(n)
  }

  function NamesCost(names: seq<Name>): nat {
    if names == [] then 0 else NamesCost(names[..|names| - 1]) + FIXED_SIZE + |names[|names| - 1].path|
  }

  function InodesCost(inodes: seq<seq<byte>>): nat {
    if inodes == [] then 0 else InodesCost(inodes[..|inodes| - 1]) + RoundUp(|inodes[|inodes| - 1]|)
  }

  function TargetsCost(targets: seq<seq<byte>>): nat {
    if targets == [] then 0 else TargetsCost(targets[..|targets| - 1]) + |targets[|targets| - 1]|
  }

  /** Archive bytes it takes to describe a file system: a header per name, whole blocks per file. */
  function Cost(fs: FS): nat {
    NamesCost(fs.names) + InodesCost(fs.inodes) + TargetsCost(fs.targets)
  }

  lemma NamesAppend(names: seq<Name>, n: Name)
    ensures NamesCost(names + [n]) == NamesCost(names) + FIXED_SIZE + |n.path|
  {
    assert (names + [n])[..|names|] == names;
  }

  lemma InodesAppend(inodes: seq<seq<byte>>, c: seq<byte>)
    ensures InodesCost(inodes + [c]) == InodesCost(inodes) + RoundUp(|c|)
  {
    assert (inodes + [c])[..|inodes|] == inodes;
  }

  lemma TargetsAppend(targets: seq<seq<byte>>, t: seq<byte>)
    ensures TargetsCost(targets + [t]) == TargetsCost(targets) + |t|
  {
    assert (targets + [t])[..|targets|] == targets;
  }

  lemma {:induction false} InodesUpdate(inodes: seq<seq<byte>>, id: nat, c: seq<byte>)
    requires id < |inodes|
    ensures InodesCost(inodes[id := c]) <= InodesCost(inodes) + RoundUp(|c|)
    decreases |inodes|
  {
    var n := |inodes| - 1;
    if id == n {
      assert inodes[id := c][..n] == inodes[..n];
    } else {
      assert inodes[id := c][..n] == inodes[..n][id := c];
      InodesUpdate(inodes[..n], id, c);
    }
  }

  /** At the very end of the archive one last block may be short. */
  function Slack(file: seq<byte>, pos: nat): nat {
    if pos >= |file| then 511 else 0
  }

  /** Away from the end of the archive every block read is a full one. */
  lemma {:induction false} CopyReads(file: seq<byte>, pos: nat, blocks: nat, padding: nat)
    requires pos <= |file|
    ensures var c := CopyOut(file, pos, blocks, padding); c.pos < |file| ==> c.pos == pos + 512 * blocks
    decreases blocks
  {
    if blocks > 1 {
      CopyReads(file, pos + |Chunk(file, pos, 512)|, blocks - 1, padding);
    }
  }

  lemma RoundUpWithin(n: nat, blocks: nat)
    ensures n <= RoundUp(n) <= n + 511
    ensures n <= 512 * blocks ==> RoundUp(n) <= 512 * blocks
  {
    BlocksCover(n);
  }

  lemma CopyCost(file: seq<byte>, pos: nat, blocks: nat, padding: nat)
    requires pos <= |file|
    ensures var c := CopyOut(file, pos, blocks, padding); RoundUp(|c.bytes|) <= c.pos - pos + Slack(file, c.pos)
  {
    var c := CopyOut(file, pos, blocks, padding);
    CopyReads(file, pos, blocks, padding);
    RoundUpWithin(|c.bytes|, blocks);
  }

  lemma WriteFileCost(file: seq<byte>, st: State, path: Path, blocks: nat, padding: nat)
    requires st.pos <= |file| && Cost(st.fs) + FIXED_SIZE + |path| <= st.pos
    ensures var st' := WriteFile(file, st, path, blocks, padding); Cost(st'.fs) <= st'.pos + Slack(file, st'.pos)
  {
    var c := CopyOut(file, st.pos, blocks, padding);
    CopyCost(file, st.pos, blocks, padding);
    NamesAppend(st.fs.names, Name(path, RegObj(|st.fs.inodes|)));
    InodesAppend(st.fs.inodes, c.bytes);
    var at := Find(st.fs.names, path);
    if at.Found? && at.obj.RegObj? && at.obj.id < |st.fs.inodes| {
      InodesUpdate(st.fs.inodes, at.obj.id, c.bytes);
    }
  }

  lemma CreateCost(st: State, path: Path, obj: Obj)
    ensures Cost(CreateName(st, path, obj).fs) <= Cost(st.fs) + FIXED_SIZE + |path|
    ensures CreateName(st, path, obj).pos == st.pos
  {
    NamesAppend(st.fs.names, Name(path, obj));
  }

  lemma SymlinkCost(st: State, path: Path, target: seq<byte>)
    ensures Cost(CreateSymlink(st, path, target).fs) <= Cost(st.fs) + FIXED_SIZE + |path| + |target|
    ensures CreateSymlink(st, path, target).pos == st.pos
  {
    NamesAppend(st.fs.names, Name(path, LinkObj(|st.fs.targets|)));
    TargetsAppend(st.fs.targets, target);
  }

  lemma LinkCost(st: State, from: Path, to: Path)
    ensures Cost(LinkName(st, from, to).fs) <= Cost(st.fs) + FIXED_SIZE + |to|
    ensures LinkName(st, from, to).pos == st.pos
  {
    var source := Find(st.fs.names, from);
    if source.Found? { CreateCost(st, to, source.obj); }
  }

  lemma RegularCost(file: seq<byte>, st: State, r: Record)
    requires st.pos <= |file| && Cost(st.fs) + FIXED_SIZE + |r.path| <= st.pos
    ensures var st' := RestoreRegular(file, st, r); Cost(st'.fs) <= st'.pos + Slack(file, st'.pos)
  {
    if r.nlink > 1 && r.ino in st.links {
      LinkCost(st, st.links[r.ino], r.path);
    } else {
      var noted := if r.nlink > 1 then st.(links := st.links[r.ino := r.path]) else st;
      WriteFileCost(file, noted, r.path, r.blocks, r.padding);
    }
  }

  lemma RestoreCost(file: seq<byte>, st: State, r: Record)
    requires st.pos <= |file| && Cost(st.fs) + FIXED_SIZE + |r.path| + |r.link| <= st.pos
    ensures var st' := Restore(file, st, r); Cost(st'.fs) <= st'.pos + Slack(file, st'.pos)
  {
    var kind := Kind(r.mode);
    if kind == S_IFDIR { CreateCost(st, r.path, DirObj); }
    else if kind == S_IFREG { RegularCost(file, st, r); }
    else if kind == S_IFIFO { CreateCost(st, r.path, FifoObj); }
    else if kind == S_IFLNK { SymlinkCost(st, r.path, r.link); }
  }

  /** Unpacking any bytes at all restores no more than the archive can hold. */
  lemma {:induction false} Conservation(file: seq<byte>, st: State)
    requires st.pos <= |file| && Cost(st.fs) <= st.pos + Slack(file, st.pos)
    ensures Cost(Extracted(file, st).fs) <= |file| + 511
    decreases |file| - st.pos
  {
    if !st.threw {
      match Parse(file, st.pos)
      case End =>
      case Bad =>
      case Got(r, next) =>
        RestoreCost(file, st.(pos := next), r);
        Conservation(file, Restore(file, st.(pos := next), r));
    }
  }
}
