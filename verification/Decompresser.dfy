// src/decompresser.cpp: read the header, rebuild the tree, walk it bit by bit.
module Decompression {
  import opened Bytes
  import opened Posix
  import opened Handlers
  import opened HuffmanTree
  import opened HuffmanCode
  import opened HuffmanSize
  import opened TreeNodes
  import opened Compression
  import Heap
  import Optimality

  datatype Option<T> = None | Some(value: T)

  /** The counts after i records of 9 bytes; a repeated byte keeps its last weight. */
  ghost function CountsAfter(file: seq<byte>, i: nat): map<byte, nat>
    requires 8 + 9 * i <= |file|
  {
    if i == 0 then map[]
    else
      var at := 8 + 9 * (i - 1);
      CountsAfter(file, i - 1)[file[at] := FromLE(file[at + 1..at + 9])]
  }

  /** The first n bits of b, one step each; positions past the byte do not move. */
  ghost function RunByte(root: Tree, st: Cursor, b: byte, n: nat): (r: Cursor)
    requires root.Node? && st.node.Node?
    ensures r.node.Node?
  {
    if n == 0 then st else Step(root, RunByte(root, st, b, n - 1), GetBit(b, n - 1))
  }

  ghost function RunBytes(root: Tree, st: Cursor, bytes: seq<byte>, n: nat): (r: Cursor)
    requires root.Node? && st.node.Node? && n <= |bytes|
    ensures r.node.Node?
  {
    if n == 0 then st else RunByte(root, RunBytes(root, st, bytes, n - 1), bytes[n - 1], 8)
  }

  /** What the decompressor makes of any file; `stale` is the uninitialised last byte of a file cut short. */
  ghost function Decompressed(file: seq<byte>, stale: byte): Option<seq<byte>> {
    if |file| < 8 then None
    else
      var k, effective := FromLE(file[..4]), FromLE(file[4..8]);
      var at := 8 + 9 * k;
      if |file| < at then None
      else
        var leaves := Heap.LeavesOf(CountsAfter(file, k), 256);
        if |leaves| < 2 then None
        else
          var t := Heap.Build(leaves);
          BuildIsInner(leaves);
          Some(WalkedFrom(t, file, at, effective, stale))
  }

  /** The output of walking the whole bytes behind offset `at`, and then the byte there. */
  ghost function WalkedFrom(t: Tree, file: seq<byte>, at: nat, effective: nat, stale: byte): seq<byte>
    requires t.Node?
  {
    var last := if at < |file| then file[at] else stale;
    var bytes := if at < |file| then file[at + 1..] else [];
    RunByte(t, RunBytes(t, Cursor(t, []), bytes, |bytes|), last, effective).out
  }

  lemma {:induction false} MergeLoopIsInner(s: seq<Tree>)
    requires |s| > 1
    ensures Heap.MergeLoop(s).Node?
    decreases |s|
  {
    if |s| > 2 {
      MergeLoopIsInner(Heap.MergeRound(s));
    } else {
      var rest := Heap.Pop(s);
      assert Heap.Pop(rest) == [];
      assert Heap.MergeRound(s) == [Join(s[0], rest[0])];
    }
  }

  // ---------- which files are refused ----------

  lemma {:induction false} RecordedBytes(file: seq<byte>, k: nat, b: byte)
    requires 8 + 9 * k <= |file|
    ensures b in CountsAfter(file, k) <==> exists i :: 0 <= i < k && file[8 + 9 * i] == b
  {
    if k > 0 {
      RecordedBytes(file, k - 1, b);
      if file[8 + 9 * (k - 1)] == b { assert b in CountsAfter(file, k); }
    }
  }

  lemma AtMostOne(m: map<byte, nat>)
    ensures |m.Keys| < 2 <==> forall a, b :: a in m && b in m ==> a == b
  {
    if |m.Keys| < 2 {
      forall a, b | a in m && b in m ensures a == b {
        if a != b {
          assert {a, b} <= m.Keys;
          SubsetSize({a, b}, m.Keys);
          assert false;
        }
      }
    } else if forall a, b :: a in m && b in m ==> a == b {
      var a :| a in m.Keys;
      SubsetSize(m.Keys, {a});
      assert false;
    }
  }

  lemma {:induction false} SubsetSize(a: set<byte>, b: set<byte>)
    requires a <= b
    ensures |a| <= |b|
  {
    if a != {} {
      var x :| x in a;
      SubsetSize(a - {x}, b - {x});
    }
  }

  /** On any bytes: a file is refused exactly when it ends inside its header, or records fewer than two bytes. */
  lemma RefusedIff(file: seq<byte>, stale: byte)
    ensures Decompressed(file, stale).None? <==>
      || |file| < 8 || |file| < 8 + 9 * FromLE(file[..4])
      || forall i, j :: 0 <= i < j < FromLE(file[..4]) ==> file[8 + 9 * i] == file[8 + 9 * j]
  {
    if |file| >= 8 && |file| >= 8 + 9 * FromLE(file[..4]) {
      var k := FromLE(file[..4]);
      var m := CountsAfter(file, k);
      LeavesCount(m, 256);
      assert (set b: byte | b in m && b < 256) == m.Keys;
      AtMostOne(m);
      SameBytes(file, k, m);
    }
  }

  lemma SameBytes(file: seq<byte>, k: nat, m: map<byte, nat>)
    requires 8 + 9 * k <= |file| && m == CountsAfter(file, k)
    ensures (forall a, b :: a in m && b in m ==> a == b)
      <==> forall i, j :: 0 <= i < j < k ==> file[8 + 9 * i] == file[8 + 9 * j]
  {
    if forall a, b :: a in m && b in m ==> a == b {
      forall i, j | 0 <= i < j < k ensures file[8 + 9 * i] == file[8 + 9 * j] {
        RecordedBytes(file, k, file[8 + 9 * i]);
        RecordedBytes(file, k, file[8 + 9 * j]);
      }
    }
    if forall i, j :: 0 <= i < j < k ==> file[8 + 9 * i] == file[8 + 9 * j] {
      forall a, b | a in m && b in m ensures a == b {
        RecordedBytes(file, k, a);
        RecordedBytes(file, k, b);
        var i :| 0 <= i < k && file[8 + 9 * i] == a;
        var j :| 0 <= j < k && file[8 + 9 * j] == b;
        assert i < j ==> file[8 + 9 * i] == file[8 + 9 * j];
        assert j < i ==> file[8 + 9 * j] == file[8 + 9 * i];
      }
    }
  }

  lemma BuildIsInner(leaves: seq<Tree>)
    requires |leaves| > 1
    ensures Heap.Build(leaves).Node?
  {
    MergeLoopIsInner(Heap.PushAll([], leaves));
  }

  // ---------- round trip ----------

  lemma {:induction false} RunByteIsRun(root: Tree, st: Cursor, b: byte, n: nat)
    requires root.Node? && st.node.Node? && n <= 8
    ensures RunByte(root, st, b, n) == Run(root, st, BitsOf(b, n))
  {
    if n > 0 {
      RunByteIsRun(root, st, b, n - 1);
      assert BitsOf(b, n)[..n - 1] == BitsOf(b, n - 1);
    }
  }

  lemma {:induction false} RunBytesIsRun(root: Tree, st: Cursor, bytes: seq<byte>, n: nat)
    requires root.Node? && st.node.Node? && n <= |bytes|
    ensures RunBytes(root, st, bytes, n) == Run(root, st, AllBits(bytes[..n]))
  {
    if n > 0 {
      RunBytesIsRun(root, st, bytes, n - 1);
      RunByteIsRun(root, RunBytes(root, st, bytes, n - 1), bytes[n - 1], 8);
      assert bytes[..n][..n - 1] == bytes[..n - 1];
      RunConcat(root, st, AllBits(bytes[..n - 1]), BitsOf(bytes[n - 1], 8));
    }
  }

  /** The reader visits exactly the bits the packer produced. */
  lemma ReadBack(t: Tree, bits: string)
    requires t.Node? && Optimality.IsBinary(bits)
    ensures var F := FullBytes(bits);
      RunByte(t, RunBytes(t, Cursor(t, []), F, |F|), ByteOf(Rest(bits)), |bits| % 8) == Run(t, Cursor(t, []), bits)
  {
    var F, st := FullBytes(bits), Cursor(t, []);
    RunBytesIsRun(t, st, F, |F|);
    assert F[..|F|] == F;
    RunByteIsRun(t, Run(t, st, AllBits(F)), ByteOf(Rest(bits)), |bits| % 8);
    RunConcat(t, st, AllBits(F), BitsOf(ByteOf(Rest(bits)), |bits| % 8));
    StreamSplits(bits);
  }

  function CountsBelow(m: map<byte, nat>, k: nat): map<byte, nat> {
    map b | b in m && b < k :: m[b]
  }

  lemma NextRecord(file: seq<byte>, n: nat, b: byte, w: nat)
    requires w < U64 && At(file, 8 + 9 * n, [b] + LE(w, 8))
    ensures CountsAfter(file, n + 1) == CountsAfter(file, n)[b := w]
  {
    var at := 8 + 9 * n;
    AtSplit(file, at, [b], LE(w, 8));
    AtIndex(file, at, [b], 0);
    Pow256Values();
    FromLEofLE(w, 8);
  }

  /** Reading the records back yields the counts. */
  lemma {:induction false} ParseRecords(file: seq<byte>, m: map<byte, nat>, k: nat, n: nat)
    requires k <= 256 && At(file, 8, Records(m, k)) && n == |Heap.LeavesOf(m, k)|
    requires forall b :: b in m ==> m[b] < U64
    ensures CountsAfter(file, n) == CountsBelow(m, k)
  {
    if k > 0 {
      CountsBelowStep(m, k);
      if k - 1 in m {
        LastRecord(file, m, k, n);
        ParseRecords(file, m, k - 1, n - 1);
        NextRecord(file, n - 1, k - 1, m[k - 1]);
      } else {
        ParseRecords(file, m, k - 1, n);
      }
    }
  }

  lemma CountsBelowStep(m: map<byte, nat>, k: nat)
    requires 0 < k <= 256
    ensures CountsBelow(m, k) == if k - 1 in m then CountsBelow(m, k - 1)[k - 1 := m[k - 1]] else CountsBelow(m, k - 1)
  {
  }

  lemma LastRecord(file: seq<byte>, m: map<byte, nat>, k: nat, n: nat)
    requires 0 < k <= 256 && k - 1 in m && At(file, 8, Records(m, k)) && n == |Heap.LeavesOf(m, k)|
    ensures n == |Heap.LeavesOf(m, k - 1)| + 1
    ensures At(file, 8, Records(m, k - 1)) && At(file, 8 + 9 * (n - 1), [k - 1] + LE(m[k - 1], 8))
  {
    var record := [k - 1] + LE(m[k - 1], 8);
    assert Records(m, k) == Records(m, k - 1) + record;
    AtSplit(file, 8, Records(m, k - 1), record);
    assert 8 + |Records(m, k - 1)| == 8 + 9 * (n - 1);
  }

  lemma CountsBelowAll(data: seq<byte>)
    requires |data| < U64
    ensures forall b :: b in Counts(data) ==> Counts(data)[b] < U64
    ensures CountsBelow(Counts(data), 256) == Counts(data)
  {
    WeightsTotal(data);
    var F := Heap.LeavesOf(Counts(data), 256);
    forall b | b in Counts(data) ensures Counts(data)[b] < U64 {
      LeavesContain(Counts(data), 256, b);
      var i :| 0 <= i < |F| && F[i] == Leaf(b, Counts(data)[b]);
      Optimality.TotalWithout(Weights(F), i);
      assert Weights(F)[i] == Counts(data)[b];
    }
  }

  lemma {:induction false} EncodeBinary(t: Tree, data: seq<byte>, n: nat)
    requires DistinctBytes(Leaves(t)) && (forall b :: b in data ==> Has(t, b)) && n <= |data|
    requires Covers(Table(t, "", map[]), data)
    ensures Optimality.IsBinary(EncodeFirst(Table(t, "", map[]), data, n))
  {
    if n > 0 {
      EncodeBinary(t, data, n - 1);
      var b := data[n - 1];
      HasIsLeaf(t, b);
      var i :| 0 <= i < |Leaves(t)| && Leaves(t)[i].ch == b;
      TableIsCodes(t, "", map[], i);
      CodesExtend(t, "", CodesOf(t, "")[i]);
    }
  }

  /** The file holds word count, used bits, records, last byte and whole bytes of the compressed text. */
  ghost predicate HasParts(file: seq<byte>, data: seq<byte>)
    requires Compressible(data)
  {
    var k := |Heap.LeavesOf(Counts(data), 256)|;
    var at := 8 + 9 * k;
    && at < |file|
    && FromLE(file[..4]) == k && FromLE(file[4..8]) == |CodeBits(data)| % 8
    && At(file, 8, Records(Counts(data), 256))
    && file[at] == ByteOf(Rest(CodeBits(data))) && file[at + 1..] == FullBytes(CodeBits(data))
  }

  lemma FileParts(data: seq<byte>)
    requires Compressible(data)
    ensures HasParts(CompressedFile(data), data)
  {
    var file, bits, m := CompressedFile(data), CodeBits(data), Counts(data);
    var k := |Heap.LeavesOf(m, 256)|;
    TextForest(data);
    Pow256Values();
    FromLEofLE(k, 4);
    FromLEofLE(|bits| % 8, 4);
    var a, b, r := LE(k, 4), LE(|bits| % 8, 4), Records(m, 256);
    assert file == a + b + r + [ByteOf(Rest(bits))] + FullBytes(bits);
    assert file[..4] == a && file[4..8] == b && file[8..8 + |r|] == r;
  }

  /** Decoding the packed bits of a text with the text's own tree. */
  lemma DecodeText(data: seq<byte>, last: byte, bytes: seq<byte>, effective: nat)
    requires Compressible(data)
    requires last == ByteOf(Rest(CodeBits(data))) && bytes == FullBytes(CodeBits(data))
    requires effective == |CodeBits(data)| % 8
    ensures |Heap.LeavesOf(Counts(data), 256)| >= 2 && TreeOf(data).Node?
    ensures var t := TreeOf(data);
      RunByte(t, RunBytes(t, Cursor(t, []), bytes, |bytes|), last, effective) == Cursor(t, data)
  {
    TextTree(data);
    var t := TreeOf(data);
    forall b | b in data ensures Has(t, b) {
      assert b in Freq(data);
      assert b in Counts(data);
    }
    EncodeBinary(t, data, |data|);
    ReadBack(t, CodeBits(data));
    DecodeEncoded(t, data);
  }

  /** How Decompressed reads a file with a whole header. */
  lemma DecompressParts(file: seq<byte>, stale: byte, k: nat, at: nat, effective: nat, leaves: seq<Tree>)
    requires 8 <= at == 8 + 9 * k <= |file| && FromLE(file[..4]) == k && FromLE(file[4..8]) == effective
    requires leaves == Heap.LeavesOf(CountsAfter(file, k), 256) && |leaves| > 1
    ensures Heap.Build(leaves).Node?
    ensures Decompressed(file, stale) == Some(WalkedFrom(Heap.Build(leaves), file, at, effective, stale))
  {
    BuildIsInner(leaves);
  }

  lemma WalkText(file: seq<byte>, data: seq<byte>, at: nat, effective: nat, stale: byte)
    requires Compressible(data) && at < |file| && effective == |CodeBits(data)| % 8
    requires file[at] == ByteOf(Rest(CodeBits(data))) && file[at + 1..] == FullBytes(CodeBits(data))
    ensures TreeOf(data).Node? && WalkedFrom(TreeOf(data), file, at, effective, stale) == data
  {
    DecodeText(data, file[at], file[at + 1..], effective);
  }

  lemma ReadCounts(file: seq<byte>, data: seq<byte>, leaves: seq<Tree>)
    requires Compressible(data) && leaves == Heap.LeavesOf(Counts(data), 256)
    requires At(file, 8, Records(Counts(data), 256))
    ensures |leaves| > 1 && CountsAfter(file, |leaves|) == Counts(data)
  {
    CountsBelowAll(data);
    ParseRecords(file, Counts(data), 256, |leaves|);
    AtLeastTwo(data);
  }

  lemma TextParts(file: seq<byte>, data: seq<byte>, leaves: seq<Tree>, at: nat, effective: nat)
    requires Compressible(data) && HasParts(file, data) && leaves == Heap.LeavesOf(Counts(data), 256)
    requires at == 8 + 9 * |leaves| && effective == |CodeBits(data)| % 8
    ensures |leaves| > 1 && 8 <= at < |file|
    ensures FromLE(file[..4]) == |leaves| && FromLE(file[4..8]) == effective
    ensures leaves == Heap.LeavesOf(CountsAfter(file, |leaves|), 256)
  {
    ReadCounts(file, data, leaves);
  }

  lemma TextWalk(file: seq<byte>, data: seq<byte>, stale: byte, leaves: seq<Tree>, at: nat, effective: nat)
    requires Compressible(data) && HasParts(file, data) && leaves == Heap.LeavesOf(Counts(data), 256) && |leaves| > 1
    requires at == 8 + 9 * |leaves| && effective == |CodeBits(data)| % 8
    ensures Heap.Build(leaves).Node? && WalkedFrom(Heap.Build(leaves), file, at, effective, stale) == data
  {
    WalkText(file, data, at, effective, stale);
  }

  lemma TextRead(file: seq<byte>, data: seq<byte>, stale: byte) returns (leaves: seq<Tree>, at: nat, effective: nat)
    requires Compressible(data) && HasParts(file, data)
    ensures |leaves| > 1 && 8 <= at == 8 + 9 * |leaves| <= |file|
    ensures FromLE(file[..4]) == |leaves| && FromLE(file[4..8]) == effective
    ensures leaves == Heap.LeavesOf(CountsAfter(file, |leaves|), 256)
    ensures Heap.Build(leaves).Node? && WalkedFrom(Heap.Build(leaves), file, at, effective, stale) == data
  {
    leaves, effective := Heap.LeavesOf(Counts(data), 256), |CodeBits(data)| % 8;
    at := 8 + 9 * |leaves|;
    TextParts(file, data, leaves, at, effective);
    TextWalk(file, data, stale, leaves, at, effective);
  }

  lemma DecompressText(file: seq<byte>, data: seq<byte>, stale: byte)
    requires Compressible(data) && HasParts(file, data)
    ensures Decompressed(file, stale) == Some(data)
  {
    var leaves, at, effective := TextRead(file, data, stale);
    DecompressParts(file, stale, |leaves|, at, effective, leaves);
  }

  /** Decompressing a compressed file gives back the text, whatever the uninitialised byte was. */
  lemma RoundTrip(data: seq<byte>, stale: byte)
    requires Compressible(data)
    ensures Decompressed(CompressedFile(data), stale) == Some(data)
  {
    FileParts(data);
    DecompressText(CompressedFile(data), data, stale);
  }

  // ---------- the decompressor ----------

  lemma NextByte(t: Tree, bytes: seq<byte>, n: nat, b: byte, st: Cursor) returns (next: Cursor)
    requires t.Node? && n < |bytes| && b == bytes[n] && st == RunBytes(t, Cursor(t, []), bytes, n)
    ensures next == RunByte(t, st, b, 8) && next == RunBytes(t, Cursor(t, []), bytes, n + 1)
  {
    next := RunByte(t, st, b, 8);
  }

  class Decompresser {
    const src_fd_: File
    const dst_fd_: File
    const counts_: array<TreeNode?>
    var last_byte_effective_: nat

    /** Init: both files open, the target empty, 256 null counts. */
    constructor (src: File, dst: File)
      ensures src_fd_ == src && dst_fd_ == dst
      ensures fresh(counts_) && counts_.Length == 256 && forall i :: 0 <= i < 256 ==> counts_[i] == null
    {
      src_fd_, dst_fd_ := src, dst;
      counts_ := new TreeNode?[256](_ => null);
      last_byte_effective_ := 0;
    }

    method ReadUint32() returns (ok: bool, n: nat)
      requires src_fd_.pos <= |src_fd_.data|
      modifies src_fd_
      ensures src_fd_.data == old(src_fd_.data)
      ensures ok <==> old(src_fd_.pos) + 4 <= |src_fd_.data|
      ensures ok ==> src_fd_.pos == old(src_fd_.pos) + 4 && n == FromLE(src_fd_.data[old(src_fd_.pos)..src_fd_.pos])
    {
      var buf := src_fd_.Read(4);
      ok, n := |buf| == 4, FromLE(buf);
    }

    /** One byte and its 64-bit weight. */
    method ReadRecord() returns (ok: bool, ch: byte, weight: nat)
      requires src_fd_.pos <= |src_fd_.data|
      modifies src_fd_
      ensures src_fd_.data == old(src_fd_.data)
      ensures ok <==> old(src_fd_.pos) + 9 <= |src_fd_.data|
      ensures ok ==> var at := old(src_fd_.pos);
        ch == src_fd_.data[at] && weight == FromLE(src_fd_.data[at + 1..at + 9]) && src_fd_.pos == at + 9
    {
      ok, ch, weight := false, 0, 0;
      var c := src_fd_.Read(1);
      if |c| != 1 { return; }
      var w := src_fd_.Read(8);
      if |w| != 8 { return; }
      ok, ch, weight := true, c[0], FromLE(w);
    }

    /** Fills the counts from the records; fails exactly when the file ends too early. */
    method ReadHeader() returns (outcome: Outcome, ghost m: map<byte, nat>)
      requires src_fd_.pos == 0 && counts_.Length == 256 && forall i :: 0 <= i < 256 ==> counts_[i] == null
      modifies src_fd_, counts_, this`last_byte_effective_
      ensures src_fd_.data == old(src_fd_.data)
      ensures outcome.Done? <==> |src_fd_.data| >= 8 && |src_fd_.data| >= 8 + 9 * FromLE(src_fd_.data[..4])
      ensures outcome.Done? ==>
        && m == CountsAfter(src_fd_.data, FromLE(src_fd_.data[..4])) && Holds(counts_[..], m)
        && last_byte_effective_ == FromLE(src_fd_.data[4..8])
        && src_fd_.pos == 8 + 9 * FromLE(src_fd_.data[..4])
      ensures forall i :: 0 <= i < 256 && counts_[i] != null ==> fresh(counts_[i])
    {
      ghost var data := src_fd_.data;
      m := map[];
      var ok, wordCount := ReadUint32();
      if !ok { return Failed("read failed"), m; }
      ok, last_byte_effective_ := ReadUint32();
      if !ok { return Failed("read failed"), m; }
      ghost var effective := last_byte_effective_;
      for i := 0 to wordCount
        invariant src_fd_.data == data && src_fd_.pos == 8 + 9 * i <= |data|
        invariant m == CountsAfter(data, i) && Holds(counts_[..], m) && last_byte_effective_ == effective
        invariant forall j :: 0 <= j < 256 && counts_[j] != null ==> fresh(counts_[j])
      {
        var complete, ch, weight := ReadRecord();
        if !complete { return Failed("read failed"), m; }
        StoreCount(ch, weight, m);
        m := m[ch := weight];
      }
      outcome := Done;
    }

    method StoreCount(ch: byte, weight: nat, ghost m: map<byte, nat>)
      requires Holds(counts_[..], m)
      modifies counts_
      ensures Holds(counts_[..], m[ch := weight])
      ensures forall i :: 0 <= i < 256 && counts_[i] != null ==> counts_[i] == old(counts_[i]) || fresh(counts_[i])
    {
      assert forall i :: 0 <= i < 256 ==> counts_[i] == counts_[..][i];
      var node := new TreeNode(ch);
      node.weight_ := weight;
      counts_[ch] := node;
    }

    /** Buffer one decoded byte; write the buffer out when it is full. */
    method PutByte(b: byte, writeBuf: array<byte>, index0: nat, ghost out: seq<byte>) returns (index: nat)
      requires index0 < MAX_BUF_SIZE == writeBuf.Length && Output(out, dst_fd_.data, dst_fd_.pos, writeBuf[..index0])
      modifies writeBuf, dst_fd_
      ensures index < MAX_BUF_SIZE && Output(out + [b], dst_fd_.data, dst_fd_.pos, writeBuf[..index])
    {
      writeBuf[index0] := b;
      index := (index0 + 1) % MAX_BUF_SIZE;
      assert writeBuf[..index0 + 1] == old(writeBuf[..index0]) + [b];
      if index == 0 {
        assert writeBuf[..] == writeBuf[..index0 + 1];
        SpliceAtEnd(dst_fd_.data, writeBuf[..]);
        dst_fd_.Write(writeBuf[..]);
      }
    }

    /** Follow one bit from an inner node; no null child is ever followed. */
    method Move(root: TreeNode, ghost t: Tree, node0: TreeNode, b: int, writeBuf: array<byte>, index0: nat,
                ghost st: Cursor)
      returns (node: TreeNode, index: nat)
      requires t.Node? && root.Is(t) && st.node.Node? && node0.Is(st.node)
      requires index0 < MAX_BUF_SIZE == writeBuf.Length && Output(st.out, dst_fd_.data, dst_fd_.pos, writeBuf[..index0])
      modifies writeBuf, dst_fd_
      ensures node.Is(Step(t, st, b).node)
      ensures index < MAX_BUF_SIZE && Output(Step(t, st, b).out, dst_fd_.data, dst_fd_.pos, writeBuf[..index])
    {
      node, index := node0, index0;
      if b == 0 {
        node := node.left_;
      } else if b == 1 {
        node := node.right_;
      }
      if node.left_ == null && node.right_ == null {
        index := PutByte(node.ch_, writeBuf, index, st.out);
        node := root;
      }
    }

    /** The first n bits of one byte. */
    method WalkByte(root: TreeNode, ghost t: Tree, node0: TreeNode, b: byte, n: nat, writeBuf: array<byte>, index0: nat,
                    ghost st: Cursor)
      returns (node: TreeNode, index: nat)
      requires t.Node? && root.Is(t) && st.node.Node? && node0.Is(st.node)
      requires index0 < MAX_BUF_SIZE == writeBuf.Length && Output(st.out, dst_fd_.data, dst_fd_.pos, writeBuf[..index0])
      modifies writeBuf, dst_fd_
      ensures node.Is(RunByte(t, st, b, n).node)
      ensures index < MAX_BUF_SIZE && Output(RunByte(t, st, b, n).out, dst_fd_.data, dst_fd_.pos, writeBuf[..index])
    {
      node, index := node0, index0;
      for j := 0 to n
        invariant node.Is(RunByte(t, st, b, j).node)
        invariant index < MAX_BUF_SIZE && Output(RunByte(t, st, b, j).out, dst_fd_.data, dst_fd_.pos, writeBuf[..index])
      {
        node, index := Move(root, t, node, GetBit(b, j), writeBuf, index, RunByte(t, st, b, j));
      }
    }

    /** Walk the whole bytes, then the used bits of the last byte. */
    method ReadData(ghost m: map<byte, nat>, stale: byte) returns (outcome: Outcome)
      requires src_fd_ != dst_fd_ && Holds(counts_[..], m) && src_fd_.pos <= |src_fd_.data|
      requires dst_fd_.data == [] && dst_fd_.pos == 0
      modifies src_fd_, dst_fd_, (set n | n in counts_[..] && n != null :: n)`code_
      ensures src_fd_.data == old(src_fd_.data)
      ensures outcome.Failed? <==> |Heap.LeavesOf(m, 256)| < 2
      ensures outcome.Failed? ==> dst_fd_.data == []
      ensures outcome.Done? ==>
        var t := Heap.Build(Heap.LeavesOf(m, 256));
        t.Node? && dst_fd_.data == WalkedFrom(t, src_fd_.data, old(src_fd_.pos), last_byte_effective_, stale)
    {
      var root := BuildHuffman(counts_, m);
      if root == null {
        return Failed("failed to build huffman tree");
      }
      ghost var t := Heap.Build(Heap.LeavesOf(m, 256));
      BuildIsInner(Heap.LeavesOf(m, 256));
      WalkData(root, t, stale);
      outcome := Done;
    }

    /** The byte stored first comes last. */
    method WalkData(root: TreeNode, ghost t: Tree, stale: byte)
      requires src_fd_ != dst_fd_ && src_fd_.pos <= |src_fd_.data| && dst_fd_.data == [] && dst_fd_.pos == 0
      requires t.Node? && root.Is(t)
      modifies src_fd_, dst_fd_
      ensures src_fd_.data == old(src_fd_.data)
      ensures dst_fd_.data == WalkedFrom(t, src_fd_.data, old(src_fd_.pos), last_byte_effective_, stale)
    {
      var c := src_fd_.Read(1);
      var last := if |c| == 1 then c[0] else stale;
      var writeBuf := new byte[MAX_BUF_SIZE];
      var node, index, bytes := WalkAll(root, t, writeBuf);
      ghost var st := RunBytes(t, Cursor(t, []), bytes, |bytes|);
      node, index := WalkByte(root, t, node, last, last_byte_effective_, writeBuf, index, st);
      SpliceAtEnd(dst_fd_.data, writeBuf[..index]);
      dst_fd_.Write(writeBuf[..index]);
    }

    method WalkAll(root: TreeNode, ghost t: Tree, writeBuf: array<byte>)
      returns (node: TreeNode, index: nat, ghost bytes: seq<byte>)
      requires src_fd_ != dst_fd_ && t.Node? && root.Is(t) && writeBuf.Length == MAX_BUF_SIZE
      requires src_fd_.pos <= |src_fd_.data| && dst_fd_.data == [] && dst_fd_.pos == 0
      modifies src_fd_, dst_fd_, writeBuf
      ensures src_fd_.data == old(src_fd_.data) && bytes == src_fd_.data[old(src_fd_.pos)..]
      ensures node.Is(RunBytes(t, Cursor(t, []), bytes, |bytes|).node)
      ensures index < MAX_BUF_SIZE
      ensures Output(RunBytes(t, Cursor(t, []), bytes, |bytes|).out, dst_fd_.data, dst_fd_.pos, writeBuf[..index])
    {
      ghost var file, at := src_fd_.data, src_fd_.pos;
      bytes := file[at..];
      node, index := root, 0;
      ghost var n, st := 0, Cursor(t, []);
      while true
        invariant src_fd_.data == file && n <= |bytes| && src_fd_.pos == at + n
        invariant st == RunBytes(t, Cursor(t, []), bytes, n) && node.Is(st.node)
        invariant index < MAX_BUF_SIZE && Output(st.out, dst_fd_.data, dst_fd_.pos, writeBuf[..index])
        decreases |bytes| - n
      {
        var readBuf := src_fd_.ReadBlock(MAX_BUF_SIZE);
        if |readBuf| == 0 {
          break;
        }
        node, index, n, st := WalkBuffer(root, t, node, readBuf, writeBuf, index, bytes, n, st);
      }
    }

    method WalkBuffer(root: TreeNode, ghost t: Tree, node0: TreeNode, readBuf: seq<byte>,
                      writeBuf: array<byte>, index0: nat, ghost bytes: seq<byte>, ghost n0: nat, ghost st0: Cursor)
      returns (node: TreeNode, index: nat, ghost n: nat, ghost st: Cursor)
      requires t.Node? && root.Is(t) && n0 + |readBuf| <= |bytes|
      requires forall i :: 0 <= i < |readBuf| ==> readBuf[i] == bytes[n0 + i]
      requires st0 == RunBytes(t, Cursor(t, []), bytes, n0) && node0.Is(st0.node)
      requires index0 < MAX_BUF_SIZE == writeBuf.Length
      requires Output(st0.out, dst_fd_.data, dst_fd_.pos, writeBuf[..index0])
      modifies writeBuf, dst_fd_
      ensures n == n0 + |readBuf| && st == RunBytes(t, Cursor(t, []), bytes, n) && node.Is(st.node)
      ensures index < MAX_BUF_SIZE && Output(st.out, dst_fd_.data, dst_fd_.pos, writeBuf[..index])
    {
      node, index, n, st := node0, index0, n0, st0;
      for i := 0 to |readBuf|
        invariant n == n0 + i && st == RunBytes(t, Cursor(t, []), bytes, n) && node.Is(st.node)
        invariant index < MAX_BUF_SIZE && Output(st.out, dst_fd_.data, dst_fd_.pos, writeBuf[..index])
      {
        ghost var next := NextByte(t, bytes, n, readBuf[i], st);
        node, index := WalkByte(root, t, node, readBuf[i], 8, writeBuf, index, st);
        n, st := n + 1, next;
      }
    }

    /** The whole stage, on any file at all. */
    method Handle(stale: byte) returns (outcome: Outcome)
      requires src_fd_ != dst_fd_ && src_fd_.pos == 0 && dst_fd_.data == [] && dst_fd_.pos == 0
      requires counts_.Length == 256 && forall i :: 0 <= i < 256 ==> counts_[i] == null
      modifies this, src_fd_, dst_fd_, counts_
      ensures src_fd_.data == old(src_fd_.data)
      ensures outcome.Failed? <==> Decompressed(src_fd_.data, stale).None?
      ensures dst_fd_.data == if outcome.Failed? then [] else Decompressed(src_fd_.data, stale).value
    {
      ghost var m;
      outcome, m := ReadHeader();
      if outcome.Failed? {
        return;
      }
      outcome := ReadData(m, stale);
    }
  }

  /** What is on disk followed by the buffer is the decoded output. */
  ghost predicate Output(out: seq<byte>, data: seq<byte>, pos: nat, buffered: seq<byte>) {
    out == data + buffered && pos == |data|
  }
}
