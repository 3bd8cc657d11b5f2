// The archive format: source trees, their entries in packing order, and the bytes packed for them.
module Archive {
  import opened Bytes
  import opened Headers

  const MY_BLOCK_SIZE: nat := 512

  type Path = seq<byte>

  const SLASH: byte := 47

  /** What lstat reports, apart from the size, which is the content's length.  The device is not archived. */
  datatype Stat = Stat(dev: nat, ino: nat, mode: nat, nlink: nat, uid: nat, gid: nat, atime: Time, mtime: Time)

  /** A source tree. Sockets and devices are Special. */
  datatype Node =
    | Dir(name: seq<byte>, st: Stat, entries: seq<Node>)
    | Reg(name: seq<byte>, st: Stat, content: seq<byte>)
    | Fifo(name: seq<byte>, st: Stat)
    | Symlink(name: seq<byte>, st: Stat, target: seq<byte>)
    | Special(name: seq<byte>, st: Stat)

  datatype Body = IsDir | IsReg(content: seq<byte>) | IsFifo | IsLink(target: seq<byte>)

  /** One archived object, with its path relative to the parent of the packed root. */
  datatype Entry = Entry(path: Path, st: Stat, body: Body)

  // ---------- file kinds: the S_IFMT bits of the mode ----------

  const S_IFIFO: nat := 1
  const S_IFDIR: nat := 4
  const S_IFREG: nat := 8
  const S_IFLNK: nat := 10

  function Kind(mode: nat): nat {
    mode / 0x1000 % 16
  }

  /** The file types of POSIX, whatever the permission bits. */
  lemma KindIgnoresPermissions(perm: nat)
    requires perm < 0x1000
    ensures Kind(0x1000 + perm) == S_IFIFO && Kind(0x4000 + perm) == S_IFDIR
    ensures Kind(0x8000 + perm) == S_IFREG && Kind(0xA000 + perm) == S_IFLNK
    ensures Kind(0xC000 + perm) !in {S_IFIFO, S_IFDIR, S_IFREG, S_IFLNK}
  {
  }

  // ---------- packing order ----------

  /** Pre-order, directories before their contents; special files are skipped. */
  function Flatten(node: Node, path: Path): seq<Entry>
    decreases node, 0
  {
    match node
    case Dir(_, st, entries) => [Entry(path, st, IsDir)] + FlattenAll(entries, path)
    case Reg(_, st, content) => [Entry(path, st, IsReg(content))]
    case Fifo(_, st) => [Entry(path, st, IsFifo)]
    case Symlink(_, st, target) => [Entry(path, st, IsLink(target))]
    case Special(_, _) => []
  }

  function FlattenAll(entries: seq<Node>, path: Path): seq<Entry>
    decreases entries, 1
  {
    if entries == [] then []
    else Flatten(entries[0], path + [SLASH] + entries[0].name) + FlattenAll(entries[1..], path)
  }

  // ---------- records and data blocks ----------

  function BlocksOf(size: nat): nat {
    if size % MY_BLOCK_SIZE == 0 then size / MY_BLOCK_SIZE else size / MY_BLOCK_SIZE + 1
  }

  function PaddingOf(size: nat): nat {
    if size % MY_BLOCK_SIZE == 0 then 0 else MY_BLOCK_SIZE - size % MY_BLOCK_SIZE
  }

  lemma BlocksCover(size: nat)
    ensures 512 * BlocksOf(size) == size + PaddingOf(size) && PaddingOf(size) < 512
  {
  }

  function Padded(content: seq<byte>): (s: seq<byte>)
    ensures |s| == |content| + PaddingOf(|content|)
  {
    content + Zeros(PaddingOf(|content|))
  }

  lemma PaddedWithZeros(content: seq<byte>)
    ensures content <= Padded(content) && |Padded(content)| == 512 * BlocksOf(|content|)
    ensures forall i :: |content| <= i < |Padded(content)| ==> Padded(content)[i] == 0
  {
    BlocksCover(|content|);
  }

  function LinkOf(b: Body): seq<byte> {
    if b.IsLink? then b.target else []
  }

  function SizeOf(b: Body): nat {
    if b.IsReg? then |b.content| else 0
  }

  /** The header ParseHeader and PackLink fill in for an entry. */
  function RecordOf(e: Entry): Record {
    Record(e.path, LinkOf(e.body), |e.path|, |LinkOf(e.body)|, e.st.ino, e.st.mode, e.st.nlink, e.st.uid, e.st.gid,
           e.st.atime, e.st.mtime, BlocksOf(SizeOf(e.body)), PaddingOf(SizeOf(e.body)))
  }

  predicate MultiLinked(e: Entry) {
    e.body.IsReg? && e.st.nlink > 1
  }

  /** Link counts of the multiply linked files packed so far: the packer's hard_link_set_. */
  function SeenCounts(done: seq<Entry>): set<nat> {
    set i | 0 <= i < |done| && MultiLinked(done[i]) :: done[i].st.nlink
  }

  /** The packer writes data unless it has packed a file with the same link count before. */
  predicate WritesData(done: seq<Entry>, e: Entry) {
    e.body.IsReg? && !(MultiLinked(e) && e.st.nlink in SeenCounts(done))
  }

  function DataOf(done: seq<Entry>, e: Entry): seq<byte> {
    if WritesData(done, e) then Padded(e.body.content) else []
  }

  function EntryBytes(done: seq<Entry>, e: Entry): seq<byte> {
    Serialized(RecordOf(e)) + DataOf(done, e)
  }

  /** The bytes packed for a list of entries, in order. */
  function Packed(es: seq<Entry>): seq<byte> {
    if es == [] then []
    else var n := |es| - 1; Packed(es[..n]) + EntryBytes(es[..n], es[n])
  }

  lemma PackedAppend(es: seq<Entry>, e: Entry)
    ensures Packed(es + [e]) == Packed(es) + EntryBytes(es, e)
  {
    assert (es + [e])[..|es|] == es;
  }

  lemma SeenAppend(es: seq<Entry>, e: Entry)
    ensures SeenCounts(es + [e]) == SeenCounts(es) + if MultiLinked(e) then {e.st.nlink} else {}
  {
    var more := es + [e];
    forall x | x in SeenCounts(es) ensures x in SeenCounts(more) {
      var i :| 0 <= i < |es| && MultiLinked(es[i]) && es[i].st.nlink == x;
      assert more[i] == es[i];
    }
    if MultiLinked(e) { assert more[|es|] == e; }
  }

  // ---------- what a source tree is ----------

  /** What a directory entry can be called; "." and ".." are skipped when a directory is read. */
  predicate NameOk(name: seq<byte>) {
    name != [] && name != [46] && name != [46, 46] && 0 !in name && SLASH !in name
  }

  predicate DistinctNames(entries: seq<Node>) {
    forall i, j :: 0 <= i < j < |entries| ==> entries[i].name != entries[j].name
  }

  predicate StatOk(st: Stat) {
    && st.ino < U64 && st.mode < Pow256(4) && st.nlink < U64 && st.uid < Pow256(4) && st.gid < Pow256(4)
    && st.atime.sec < U64 && st.atime.nsec < U64 && st.mtime.sec < U64 && st.mtime.nsec < U64
  }

  /** Facts every POSIX tree meets: legal names, siblings distinct, modes matching the kinds, sizes in range. */
  predicate TreeOk(node: Node)
    decreases node, 0
  {
    && NameOk(node.name) && StatOk(node.st)
    && match node
       case Dir(_, st, entries) => Kind(st.mode) == S_IFDIR && DistinctNames(entries) && AllOk(entries)
       case Reg(_, st, content) => Kind(st.mode) == S_IFREG && |content| < U64
       case Fifo(_, st) => Kind(st.mode) == S_IFIFO
       case Symlink(_, st, target) => Kind(st.mode) == S_IFLNK && target != [] && 0 !in target && |target| < U64
       case Special(_, st) => Kind(st.mode) !in {S_IFDIR, S_IFREG, S_IFIFO, S_IFLNK}
  }

  predicate AllOk(entries: seq<Node>)
    decreases entries, 1
  {
    entries == [] || (TreeOk(entries[0]) && AllOk(entries[1..]))
  }
}
