// src/compresser.cpp: count, build, write the header, pack the bits.
module Compression {
  import opened Bytes
  import opened Posix
  import opened Handlers
  import opened HuffmanTree
  import opened HuffmanCode
  import opened HuffmanSize
  import opened TreeNodes
  import Heap

  ghost predicate Compressible(data: seq<byte>) {
    0 < |data| < U64
  }

  ghost function CodeBits(data: seq<byte>): string
    requires Compressible(data)
  {
    TextTree(data);
    Encode(CodeTable(data), data)
  }

  ghost function CompressedFile(data: seq<byte>): seq<byte>
    requires Compressible(data)
  {
    FileHeader(Counts(data), |CodeBits(data)| % 8) + Body(CodeBits(data))
  }

  // ---------- the explicit-stack walk ----------

  /** The table after popping every tree of the stack, the last one first. */
  ghost function TableOfStack(ts: seq<Tree>, ps: seq<string>, table: map<byte, string>): map<byte, string>
    requires |ts| == |ps|
  {
    if ts == [] then table
    else var n := |ts| - 1; TableOfStack(ts[..n], ps[..n], Table(ts[n], ps[n], table))
  }

  ghost function Size(t: Tree): nat {
    match t
    case Leaf(_, _) => 1
    case Node(_, l, r) => 1 + Size(l) + Size(r)
  }

  ghost function StackSize(ts: seq<Tree>): nat {
    if ts == [] then 0 else StackSize(ts[..|ts| - 1]) + Size(ts[|ts| - 1])
  }

  // ---------- the bit packer's state ----------

  /** The packer refines the bit list `done`: flushed bytes, then buffered bytes, then the open byte. */
  ghost predicate HoldsBits(done: string, flushed: seq<byte>, buffered: seq<byte>, byteBuf: byte, bitIndex: nat) {
    && bitIndex == |done| % 8 && byteBuf == ByteOf(Rest(done))
    && FullBytes(done) == flushed + buffered
  }

  /** The target file holds the header `base` and the flushed bytes, with a hole between them. */
  ghost predicate OnDisk(base: seq<byte>, flushed: seq<byte>, data: seq<byte>, pos: nat) {
    data == Flushed(base, flushed) && pos == |base| + 1 + |flushed|
  }

  class Compresser {
    const src_fd_: File
    const dst_fd_: File
    const counts_: array<TreeNode?>
    var coding_table_: map<byte, string>
    var last_byte_effective_: nat

    /** Init: both files open, the target empty, 256 null counts. */
    constructor (src: File, dst: File)
      ensures src_fd_ == src && dst_fd_ == dst
      ensures fresh(counts_) && counts_.Length == 256 && forall i :: 0 <= i < 256 ==> counts_[i] == null
      ensures coding_table_ == map[]
    {
      src_fd_, dst_fd_ := src, dst;
      counts_ := new TreeNode?[256](_ => null);
      coding_table_ := map[];
      last_byte_effective_ := 0;
    }

    method CountByte(b: byte, ghost m: map<byte, nat>)
      requires Holds(counts_[..], m)
      modifies counts_, (set i | 0 <= i < counts_.Length && counts_[i] != null :: counts_[i])`weight_
      ensures Holds(counts_[..], m[b := CountOf(m, b) + 1])
      ensures forall i :: 0 <= i < 256 && counts_[i] != null ==> counts_[i] == old(counts_[i]) || fresh(counts_[i])
    {
      assert forall i :: 0 <= i < 256 ==> counts_[i] == counts_[..][i];
      if counts_[b] == null {
        counts_[b] := new TreeNode(b);
      }
      counts_[b].weight_ := counts_[b].weight_ + 1;
    }

    /** Count the bytes of one buffer, which continues the text seen so far. */
    method CountBuffer(buf: seq<byte>, ghost seen: seq<byte>)
      requires Holds(counts_[..], Freq(seen))
      modifies counts_, (set i | 0 <= i < counts_.Length && counts_[i] != null :: counts_[i])`weight_
      ensures Holds(counts_[..], Freq(seen + buf))
      ensures forall i :: 0 <= i < 256 && counts_[i] != null ==> counts_[i] == old(counts_[i]) || fresh(counts_[i])
    {
      assert seen + buf[..0] == seen;
      for i := 0 to |buf|
        invariant Holds(counts_[..], Freq(seen + buf[..i]))
        invariant forall i :: 0 <= i < 256 && counts_[i] != null ==> counts_[i] == old(counts_[i]) || fresh(counts_[i])
      {
        FreqAppend(seen + buf[..i], buf[i]);
        assert seen + buf[..i] + [buf[i]] == seen + buf[..i + 1];
        CountByte(buf[i], Freq(seen + buf[..i]));
      }
      assert buf[..|buf|] == buf;
    }

    method WordFreqCount()
      requires src_fd_.pos == 0 && counts_.Length == 256 && forall i :: 0 <= i < 256 ==> counts_[i] == null
      modifies src_fd_, counts_
      ensures src_fd_.data == old(src_fd_.data)
      ensures Holds(counts_[..], Counts(src_fd_.data))
      ensures forall i :: 0 <= i < 256 && counts_[i] != null ==> fresh(counts_[i])
    {
      ghost var data := src_fd_.data;
      assert Freq(data[..0]) == map[];
      while true
        invariant src_fd_.data == data && src_fd_.pos <= |data|
        invariant Holds(counts_[..], Freq(data[..src_fd_.pos]))
        invariant forall i :: 0 <= i < 256 && counts_[i] != null ==> fresh(counts_[i])
        decreases |data| - src_fd_.pos
      {
        ghost var seen := data[..src_fd_.pos];
        var buf := src_fd_.ReadBlock(MAX_BUF_SIZE);
        if |buf| == 0 {
          break;
        }
        assert data[..src_fd_.pos] == seen + buf;
        CountBuffer(buf, seen);
      }
      assert data[..src_fd_.pos] == data;
      AddDummy(Freq(data));
    }

    /** Look for a second counted byte, stopping as soon as there is one. */
    method FindTwo(ghost m: map<byte, nat>) returns (ch: byte, wordCount: nat)
      requires Holds(counts_[..], m)
      ensures wordCount == 1 <==> |m| == 1
      ensures wordCount == 1 ==> ch in m
    {
      ch, wordCount := 0, 0;
      for i := 0 to 256
        invariant wordCount == |Heap.LeavesOf(m, i)| <= 1
        invariant wordCount == 1 ==> ch in m
      {
        assert counts_[i] == counts_[..][i];
        if counts_[i] != null {
          ch := counts_[i].ch_;
          wordCount := wordCount + 1;
          if wordCount > 1 {
            MonotoneLeaves(m, i + 1);
            break;
          }
        }
      }
      LeavesCount(m, 256);
      assert (set b: byte | b in m && b < 256) == m.Keys;
    }

    /** A single counted byte gets a neighbour of weight zero. */
    method AddDummy(ghost m: map<byte, nat>)
      requires Holds(counts_[..], m)
      modifies counts_
      ensures Holds(counts_[..], WithDummy(m))
      ensures forall i :: 0 <= i < 256 && counts_[i] != null ==> counts_[i] == old(counts_[i]) || fresh(counts_[i])
    {
      var ch, wordCount := FindTwo(m);
      if wordCount == 1 {
        OneKey(m);
        ghost var k :| m.Keys == {k} && WithDummy(m) == m[(k + 1) % 256 := 0];
        assert ch in m.Keys;
        var next: int := ch as int + 1;
        var newCh: byte := next % 256;
        assert newCh != ch && newCh !in m.Keys;
        counts_[newCh] := new TreeNode(newCh);
      }
    }

    /** Build the tree, then collect the leaf codes with an explicit stack. */
    method GenerateCodingTable(ghost m: map<byte, nat>) returns (outcome: Outcome)
      requires Holds(counts_[..], m) && coding_table_ == map[]
      modifies this`coding_table_, (set n | n in counts_[..] && n != null :: n)`code_
      ensures outcome.Failed? <==> |Heap.LeavesOf(m, 256)| < 2
      ensures outcome.Done? ==> coding_table_ == Table(Heap.Build(Heap.LeavesOf(m, 256)), "", map[])
    {
      var root := BuildHuffman(counts_, m);
      if root == null {
        return Failed("failed to build huffman tree");
      }
      CollectCodes(root, Heap.Build(Heap.LeavesOf(m, 256)));
      outcome := Done;
    }

    method CollectCodes(root: TreeNode, ghost t: Tree)
      requires root.Is(t) && root.Coded(t, "")
      modifies this`coding_table_
      ensures coding_table_ == Table(t, "", old(coding_table_))
    {
      ghost var ts, ps := [t], [""];
      ghost var goal := Table(t, "", coding_table_);
      var help: seq<TreeNode> := [root];
      while help != []
        invariant |help| == |ts| == |ps|
        invariant forall i :: 0 <= i < |help| ==> help[i].Is(ts[i]) && help[i].Coded(ts[i], ps[i])
        invariant TableOfStack(ts, ps, coding_table_) == goal
        decreases StackSize(ts)
      {
        var n := |help| - 1;
        var node := help[n];
        ghost var top, prefix := ts[n], ps[n];
        help, ts, ps := help[..n], ts[..n], ps[..n];
        if node.left_ == null || node.right_ == null {
          coding_table_ := coding_table_[node.ch_ := node.code_];
          continue;
        }
        PushTwo(ts, ps, top, prefix, coding_table_);
        help := help + [node.right_] + [node.left_];
        ts, ps := ts + [top.right] + [top.left], ps + [prefix + "1"] + [prefix + "0"];
      }
    }

    method CountWords(ghost m: map<byte, nat>) returns (wordCount: nat)
      requires Holds(counts_[..], m)
      ensures wordCount == |Heap.LeavesOf(m, 256)|
    {
      wordCount := 0;
      for i := 0 to 256
        invariant wordCount == |Heap.LeavesOf(m, i)|
      {
        assert counts_[i] == counts_[..][i];
        if counts_[i] != null { wordCount := wordCount + 1; }
      }
    }

    /** Used bits of the last byte, with every product and sum taken modulo 8. */
    method EffectiveBits(ghost m: map<byte, nat>) returns (effective: nat)
      requires Holds(counts_[..], m)
      requires forall b :: b in m ==> b in coding_table_
      ensures effective == CountTotal(m, CodeLength(coding_table_), 256) % 8
    {
      effective := 0;
      for i := 0 to 256
        invariant effective == CountTotal(m, CodeLength(coding_table_), i) % 8
      {
        assert counts_[i] == counts_[..][i];
        if counts_[i] != null {
          var t := counts_[i];
          ModEight(CountTotal(m, CodeLength(coding_table_), i), t.weight_, |coding_table_[t.ch_]|);
          effective := (effective + (t.weight_ % 8 * |coding_table_[t.ch_]| % 8) % 8) % 8;
        }
      }
    }

    method WriteRecords(ghost m: map<byte, nat>)
      requires Holds(counts_[..], m)
      requires dst_fd_.pos == |dst_fd_.data|
      modifies dst_fd_
      ensures dst_fd_.data == old(dst_fd_.data) + Records(m, 256) && dst_fd_.pos == |dst_fd_.data|
    {
      ghost var before := dst_fd_.data;
      for i := 0 to 256
        invariant dst_fd_.data == before + Records(m, i) && dst_fd_.pos == |dst_fd_.data|
      {
        assert counts_[i] == counts_[..][i];
        if counts_[i] != null {
          Append([counts_[i].ch_]);
          Append(LE(counts_[i].weight_, 8));
          Associative(before, Records(m, i), [counts_[i].ch_]);
          Associative(before, Records(m, i) + [counts_[i].ch_], LE(counts_[i].weight_, 8));
        }
      }
    }

    /** write() at the end of the target. */
    method Append(buf: seq<byte>)
      requires dst_fd_.pos == |dst_fd_.data|
      modifies dst_fd_
      ensures dst_fd_.data == old(dst_fd_.data) + buf && dst_fd_.pos == |dst_fd_.data|
    {
      SpliceAtEnd(dst_fd_.data, buf);
      dst_fd_.Write(buf);
    }

    method WriteHeader(ghost m: map<byte, nat>)
      requires Holds(counts_[..], m)
      requires dst_fd_.data == [] && dst_fd_.pos == 0
      requires forall b :: b in m ==> b in coding_table_
      modifies this`last_byte_effective_, dst_fd_
      ensures last_byte_effective_ == CountTotal(m, CodeLength(coding_table_), 256) % 8
      ensures dst_fd_.data == FileHeader(m, last_byte_effective_) && dst_fd_.pos == |dst_fd_.data|
    {
      var wordCount := CountWords(m);
      Append(LE(wordCount, 4));
      var effective := EffectiveBits(m);
      Append(LE(effective, 4));
      last_byte_effective_ := effective;
      WriteRecords(m);
    }

    /** Put a finished byte into the write buffer; write the buffer out when it is full. */
    method PutByte(b: byte, writeBuf: array<byte>, index0: nat, ghost flushed0: seq<byte>, ghost base: seq<byte>)
      returns (index: nat, ghost flushed: seq<byte>)
      requires index0 < MAX_BUF_SIZE == writeBuf.Length && OnDisk(base, flushed0, dst_fd_.data, dst_fd_.pos)
      modifies writeBuf, dst_fd_
      ensures index < MAX_BUF_SIZE && OnDisk(base, flushed, dst_fd_.data, dst_fd_.pos)
      ensures flushed + writeBuf[..index] == flushed0 + old(writeBuf[..index0]) + [b]
    {
      writeBuf[index0] := b;
      index, flushed := (index0 + 1) % MAX_BUF_SIZE, flushed0;
      assert writeBuf[..index0 + 1] == old(writeBuf[..index0]) + [b];
      if index == 0 {
        FlushBlock(base, flushed0, writeBuf[..]);
        assert writeBuf[..] == writeBuf[..index0 + 1];
        dst_fd_.Write(writeBuf[..]);
        flushed := flushed0 + writeBuf[..];
      }
    }

    /** Append one code bit to the open byte; pass full bytes on. */
    method PutBit(c: char, writeBuf: array<byte>, index0: nat, byteBuf0: byte, bitIndex0: nat,
                  ghost done: string, ghost flushed0: seq<byte>, ghost base: seq<byte>)
      returns (index: nat, byteBuf: byte, bitIndex: nat, ghost flushed: seq<byte>)
      requires index0 < MAX_BUF_SIZE == writeBuf.Length && OnDisk(base, flushed0, dst_fd_.data, dst_fd_.pos)
      requires HoldsBits(done, flushed0, writeBuf[..index0], byteBuf0, bitIndex0)
      modifies writeBuf, dst_fd_
      ensures index < MAX_BUF_SIZE && OnDisk(base, flushed, dst_fd_.data, dst_fd_.pos)
      ensures HoldsBits(done + [c], flushed, writeBuf[..index], byteBuf, bitIndex)
    {
      AppendBit(done, c);
      assert (Rest(done) + [c])[..|Rest(done)|] == Rest(done);
      index, flushed, byteBuf := index0, flushed0, SetBit(byteBuf0, bitIndex0, c == '1');
      bitIndex := (bitIndex0 + 1) % 8;
      if bitIndex == 0 {
        index, flushed := PutByte(byteBuf, writeBuf, index, flushed, base);
        byteBuf := 0;
      }
    }

    method PackCode(code: string, writeBuf: array<byte>, index0: nat, byteBuf0: byte, bitIndex0: nat,
                    ghost done: string, ghost flushed0: seq<byte>, ghost base: seq<byte>)
      returns (index: nat, byteBuf: byte, bitIndex: nat, ghost flushed: seq<byte>)
      requires index0 < MAX_BUF_SIZE == writeBuf.Length && OnDisk(base, flushed0, dst_fd_.data, dst_fd_.pos)
      requires HoldsBits(done, flushed0, writeBuf[..index0], byteBuf0, bitIndex0)
      modifies writeBuf, dst_fd_
      ensures index < MAX_BUF_SIZE && OnDisk(base, flushed, dst_fd_.data, dst_fd_.pos)
      ensures HoldsBits(done + code, flushed, writeBuf[..index], byteBuf, bitIndex)
    {
      index, byteBuf, bitIndex, flushed := index0, byteBuf0, bitIndex0, flushed0;
      assert done + code[..0] == done;
      for k := 0 to |code|
        invariant index < MAX_BUF_SIZE && OnDisk(base, flushed, dst_fd_.data, dst_fd_.pos)
        invariant HoldsBits(done + code[..k], flushed, writeBuf[..index], byteBuf, bitIndex)
      {
        assert done + code[..k] + [code[k]] == done + code[..k + 1];
        index, byteBuf, bitIndex, flushed :=
          PutBit(code[k], writeBuf, index, byteBuf, bitIndex, done + code[..k], flushed, base);
      }
      assert code[..|code|] == code;
    }

    method PackBuffer(readBuf: seq<byte>, writeBuf: array<byte>, index0: nat, byteBuf0: byte, bitIndex0: nat,
                      ghost data: seq<byte>, ghost start: nat, ghost stop: nat,
                      ghost done0: string, ghost flushed0: seq<byte>, ghost base: seq<byte>)
      returns (index: nat, byteBuf: byte, bitIndex: nat, ghost done: string, ghost flushed: seq<byte>)
      requires Covers(coding_table_, data) && start <= stop <= |data| && readBuf == data[start..stop]
      requires done0 == EncodeFirst(coding_table_, data, start)
      requires index0 < MAX_BUF_SIZE == writeBuf.Length && OnDisk(base, flushed0, dst_fd_.data, dst_fd_.pos)
      requires HoldsBits(done0, flushed0, writeBuf[..index0], byteBuf0, bitIndex0)
      modifies writeBuf, dst_fd_
      ensures done == EncodeFirst(coding_table_, data, stop)
      ensures index < MAX_BUF_SIZE && OnDisk(base, flushed, dst_fd_.data, dst_fd_.pos)
      ensures HoldsBits(done, flushed, writeBuf[..index], byteBuf, bitIndex)
    {
      index, byteBuf, bitIndex, done, flushed := index0, byteBuf0, bitIndex0, done0, flushed0;
      for i := 0 to |readBuf|
        invariant done == EncodeFirst(coding_table_, data, start + i)
        invariant index < MAX_BUF_SIZE && OnDisk(base, flushed, dst_fd_.data, dst_fd_.pos)
        invariant HoldsBits(done, flushed, writeBuf[..index], byteBuf, bitIndex)
      {
        assert readBuf[i] == data[start + i];
        var code := coding_table_[readBuf[i]];
        index, byteBuf, bitIndex, flushed := PackCode(code, writeBuf, index, byteBuf, bitIndex, done, flushed, base);
        done := done + code;
      }
    }

    method PackAll(writeBuf: array<byte>, ghost base: seq<byte>)
      returns (index: nat, byteBuf: byte, bitIndex: nat, ghost done: string, ghost flushed: seq<byte>)
      requires src_fd_ != dst_fd_ && src_fd_.pos == 0 && Covers(coding_table_, src_fd_.data)
      requires writeBuf.Length == MAX_BUF_SIZE && OnDisk(base, [], dst_fd_.data, dst_fd_.pos)
      modifies writeBuf, src_fd_, dst_fd_
      ensures src_fd_.data == old(src_fd_.data)
      ensures done == Encode(coding_table_, src_fd_.data)
      ensures index < MAX_BUF_SIZE && OnDisk(base, flushed, dst_fd_.data, dst_fd_.pos)
      ensures HoldsBits(done, flushed, writeBuf[..index], byteBuf, bitIndex)
    {
      ghost var data := src_fd_.data;
      index, byteBuf, bitIndex, done, flushed := 0, 0, 0, "", [];
      while true
        invariant src_fd_.data == data && src_fd_.pos <= |data|
        invariant done == EncodeFirst(coding_table_, data, src_fd_.pos)
        invariant index < MAX_BUF_SIZE && OnDisk(base, flushed, dst_fd_.data, dst_fd_.pos)
        invariant HoldsBits(done, flushed, writeBuf[..index], byteBuf, bitIndex)
        decreases |data| - src_fd_.pos
      {
        ghost var start := src_fd_.pos;
        var readBuf := src_fd_.ReadBlock(MAX_BUF_SIZE);
        if |readBuf| == 0 {
          break;
        }
        index, byteBuf, bitIndex, done, flushed :=
          PackBuffer(readBuf, writeBuf, index, byteBuf, bitIndex, data, start, src_fd_.pos, done, flushed, base);
      }
    }

    /** Write the last buffer, then put the open byte, if it holds any bit, in front of the data. */
    method WriteLast(writeBuf: array<byte>, index: nat, byteBuf: byte, lastBytePos: nat, ghost bitIndex: nat,
                     ghost bits: string, ghost flushed: seq<byte>, ghost base: seq<byte>)
      requires index < MAX_BUF_SIZE == writeBuf.Length && OnDisk(base, flushed, dst_fd_.data, dst_fd_.pos)
      requires |bits| > 0 && HoldsBits(bits, flushed, writeBuf[..index], byteBuf, bitIndex)
      requires last_byte_effective_ == bitIndex && lastBytePos == |base|
      modifies dst_fd_
      ensures dst_fd_.data == base + Body(bits)
    {
      FinishBody(base, bits, flushed, writeBuf[..index], byteBuf, bitIndex);
      dst_fd_.Write(writeBuf[..index]);
      if last_byte_effective_ != 0 {
        dst_fd_.PWrite([byteBuf], lastBytePos);
      }
    }

    method WriteData()
      requires src_fd_ != dst_fd_ && Covers(coding_table_, src_fd_.data)
      requires dst_fd_.pos == |dst_fd_.data|
      requires last_byte_effective_ == |Encode(coding_table_, src_fd_.data)| % 8
      requires |Encode(coding_table_, src_fd_.data)| > 0
      modifies src_fd_, dst_fd_
      ensures src_fd_.data == old(src_fd_.data)
      ensures dst_fd_.data == old(dst_fd_.data) + Body(Encode(coding_table_, src_fd_.data))
    {
      ghost var base := dst_fd_.data;
      src_fd_.Seek(0);
      var writeBuf := new byte[MAX_BUF_SIZE];
      var lastBytePos := dst_fd_.pos;
      dst_fd_.Seek(lastBytePos + 1);
      var index, byteBuf, bitIndex, bits, flushed := PackAll(writeBuf, base);
      WriteLast(writeBuf, index, byteBuf, lastBytePos, bitIndex, bits, flushed, base);
    }

    /** The whole stage. Only the empty file cannot be compressed: it has no two leaves. */
    method Handle() returns (outcome: Outcome)
      requires src_fd_ != dst_fd_ && src_fd_.pos == 0 && dst_fd_.data == [] && dst_fd_.pos == 0
      requires counts_.Length == 256 && (forall i :: 0 <= i < 256 ==> counts_[i] == null) && coding_table_ == map[]
      requires |src_fd_.data| < U64
      modifies this, src_fd_, dst_fd_, counts_
      ensures src_fd_.data == old(src_fd_.data)
      ensures outcome.Failed? <==> src_fd_.data == []
      ensures dst_fd_.data == if outcome.Failed? then [] else CompressedFile(src_fd_.data)
    {
      ghost var m := Counts(src_fd_.data);
      WordFreqCount();
      CountedText(src_fd_.data);
      outcome := GenerateCodingTable(m);
      if outcome.Failed? {
        return;
      }
      TableCoversCounts(src_fd_.data);
      WriteHeader(m);
      WriteData();
    }
  }

  lemma CountedText(data: seq<byte>)
    requires |data| < U64
    ensures |Heap.LeavesOf(Counts(data), 256)| < 2 <==> data == []
  {
    if data == [] {
      assert Freq(data) == map[];
      LeavesCount(Counts(data), 256);
      assert (set b: byte | b in Counts(data) && b < 256) == {};
    } else {
      TextForest(data);
    }
  }

  lemma TableCoversCounts(data: seq<byte>)
    requires Compressible(data)
    ensures |Heap.LeavesOf(Counts(data), 256)| > 0 && Covers(CodeTable(data), data)
    ensures forall b :: b in Counts(data) ==> b in CodeTable(data)
    ensures |CodeBits(data)| == CountTotal(Counts(data), CodeLength(CodeTable(data)), 256)
    ensures |CodeBits(data)| >= |data|
  {
    TextTree(data);
    forall b | b in Counts(data) ensures b in CodeTable(data) && |CodeTable(data)[b]| > 0 {
      TablePaths(TreeOf(data), b);
    }
    BitsAreCost(data);
    forall b | b in data ensures b in Counts(data) {
      assert b in Freq(data);
    }
    AtLeastOneBit(CodeTable(data), data, |data|);
  }

  lemma {:induction false} AtLeastOneBit(table: map<byte, string>, data: seq<byte>, n: nat)
    requires Covers(table, data) && n <= |data| && forall b :: b in data ==> |table[b]| > 0
    ensures |EncodeFirst(table, data, n)| >= n
  {
    if n > 0 { AtLeastOneBit(table, data, n - 1); }
  }

  /** The compressed file has exactly this many bytes, and never many more than the text. */
  lemma CompressedSize(data: seq<byte>)
    requires Compressible(data)
    ensures var k, bits := |Counts(data)|, |CodeBits(data)|;
      && |CompressedFile(data)| == 4 + 4 + 9 * k + 1 + bits / 8
      && bits == Cost(TreeOf(data))
      && |data| <= bits <= 8 * |data|
      && 2 <= k <= 256
  {
    TableCoversCounts(data);
    BitsAreCost(data);
    NeverLonger(data);
    TextForest(data);
    LeavesCount(Counts(data), 256);
    assert (set b: byte | b in Counts(data) && b < 256) == Counts(data).Keys;
  }

  /** The target after the header `base`: nothing yet, or a hole for the last byte and then `bytes`. */
  function Flushed(base: seq<byte>, bytes: seq<byte>): seq<byte> {
    if bytes == [] then base else base + [0] + bytes
  }

  lemma FlushBlock(base: seq<byte>, bytes: seq<byte>, block: seq<byte>)
    requires block != []
    ensures Splice(Flushed(base, bytes), |base| + 1 + |bytes|, block) == Flushed(base, bytes + block)
  {
    if bytes == [] {
      assert base + seq(1, _ => 0) == base + [0];
    } else {
      SpliceAtEnd(base + [0] + bytes, block);
      assert base + [0] + bytes + block == base + [0] + (bytes + block);
    }
  }

  /** The last buffer and the displaced byte complete the body. */
  lemma FinishBody(base: seq<byte>, bits: string, flushed: seq<byte>, tail: seq<byte>, byteBuf: byte, bitIndex: nat)
    requires |bits| > 0 && HoldsBits(bits, flushed, tail, byteBuf, bitIndex)
    ensures var written := Splice(Flushed(base, flushed), |base| + 1 + |flushed|, tail);
      && (bitIndex == 0 ==> written == base + Body(bits))
      && Splice(written, |base|, [byteBuf]) == base + Body(bits)
  {
    if tail != [] {
      FlushBlock(base, flushed, tail);
    } else {
      assert flushed + tail == flushed;
    }
    Displace(base, flushed + tail, byteBuf);
    assert base + Body(bits) == base + [byteBuf] + (flushed + tail);
  }

  lemma Displace(base: seq<byte>, F: seq<byte>, b: byte)
    ensures Splice(Flushed(base, F), |base|, [b]) == base + [b] + F
  {
    var data := Flushed(base, F);
    if F == [] {
      SpliceAtEnd(base, [b]);
    } else {
      assert data[..|base|] == base && data[|base| + 1..] == F;
    }
  }

  lemma ModEight(total: nat, w: nat, len: nat)
    ensures (total % 8 + (w % 8 * len % 8) % 8) % 8 == (total + w * len) % 8
  {
    var q, r := w / 8, w % 8;
    assert w * len == 8 * (q * len) + r * len by {
      assert w == 8 * q + r;
    }
    SumModEight(total, q * len, r * len);
  }

  lemma SumModEight(total: nat, a: nat, b: nat)
    ensures (total % 8 + (b % 8) % 8) % 8 == (total + (8 * a + b)) % 8
  {
    var q, r, s, t := total / 8, total % 8, b / 8, b % 8;
    assert total + (8 * a + b) == 8 * (q + a + s) + (r + t);
    DropEights(q + a + s, r + t);
  }

  lemma DropEights(k: nat, x: nat)
    ensures (8 * k + x) % 8 == x % 8
  {
  }

  lemma PushTwo(ts: seq<Tree>, ps: seq<string>, top: Tree, prefix: string, table: map<byte, string>)
    requires |ts| == |ps| && top.Node?
    ensures TableOfStack(ts + [top.right] + [top.left], ps + [prefix + "1"] + [prefix + "0"], table)
            == TableOfStack(ts, ps, Table(top, prefix, table))
    ensures StackSize(ts + [top.right] + [top.left]) == StackSize(ts) + Size(top) - 1
  {
    var ts1, ps1 := ts + [top.right], ps + [prefix + "1"];
    var ts2, ps2 := ts1 + [top.left], ps1 + [prefix + "0"];
    assert ts2[..|ts2| - 1] == ts1 && ps2[..|ps2| - 1] == ps1;
    assert ts1[..|ts1| - 1] == ts && ps1[..|ps1| - 1] == ps;
  }

  lemma {:induction false} MonotoneLeaves(m: map<byte, nat>, k: nat)
    requires k <= 256
    ensures |Heap.LeavesOf(m, k)| <= |Heap.LeavesOf(m, 256)|
    decreases 256 - k
  {
    if k < 256 { MonotoneLeaves(m, k + 1); }
  }

  // ---------- the format by example ----------

  /** Bytes that were not counted add nothing. */
  lemma {:induction false} NothingCounted(m: map<byte, nat>, lo: nat, hi: nat)
    requires lo <= hi <= 256 && forall b :: lo <= b < hi ==> b !in m
    ensures Heap.LeavesOf(m, hi) == Heap.LeavesOf(m, lo) && Records(m, hi) == Records(m, lo)
    decreases hi
  {
    if lo < hi { NothingCounted(m, lo, hi - 1); }
  }

  lemma OneCounted(m: map<byte, nat>, k: byte)
    requires k in m
    ensures Heap.LeavesOf(m, k + 1) == Heap.LeavesOf(m, k) + [Leaf(k, m[k])]
    ensures Records(m, k + 1) == Records(m, k) + [k] + LE(m[k], 8)
  {
  }

  lemma TwoCounts(m: map<byte, nat>)
    requires m == map[97 := 2, 98 := 1]
    ensures Heap.LeavesOf(m, 256) == [Leaf(97, 2), Leaf(98, 1)]
    ensures Records(m, 256) == [97] + LE(2, 8) + [98] + LE(1, 8)
  {
    NothingCounted(m, 0, 97);
    OneCounted(m, 97);
    OneCounted(m, 98);
    NothingCounted(m, 99, 256);
    StartEmpty(Leaf(97, 2), Leaf(98, 1), LE(2, 8));
  }

  lemma StartEmpty(a: Tree, b: Tree, w: seq<byte>)
    ensures ([] + [a]) + [b] == [a, b] && [] + [97] + w == [97] + w
  {
  }

  lemma CountsOfThree(data: seq<byte>)
    requires data == [97, 97, 98]
    ensures Counts(data) == map[97 := 2, 98 := 1]
  {
    var m := Freq(data);
    assert multiset(data) == multiset{97, 97, 98};
    assert m.Keys == {97, 98};
    assert |m.Keys| == 2 && |m| == |m.Keys|;
    assert m == map[97 := 2, 98 := 1];
  }

  /** Two leaves, the heavier first: they swap places in the heap, so the lighter one becomes the left child. */
  lemma BuildOfTwo(a: Tree, b: Tree)
    requires a.w > b.w
    ensures Heap.Build([a, b]) == Join(b, a)
  {
    PushOfTwo(a, b);
    assert [a, b][1..] == [b] && [b][1..] == [];
    assert Heap.PushAll([b, a], []) == [b, a];
    assert Heap.PushAll([a], [b]) == [b, a];
    assert Heap.PushAll([], [a, b]) == [b, a];
    RoundOfTwo(b, a);
    assert Heap.MergeLoop([Join(b, a)]) == Join(b, a);
  }

  lemma PushOfTwo(a: Tree, b: Tree)
    requires a.w > b.w
    ensures Heap.Push([], a) == [a] && Heap.Push([a], b) == [b, a]
  {
    assert [] + [a] == [a] && [a] + [b] == [a, b];
    assert Heap.SwapAt([a, b], 1, 0) == [b, a] && Heap.Parent(1) == 0;
    assert Heap.SiftUp([b, a], 0) == [b, a];
  }

  lemma RoundOfTwo(x: Tree, y: Tree)
    ensures Heap.MergeRound([x, y]) == [Join(x, y)]
  {
    assert [x, y][0 := y][..1] == [y];
    assert Heap.Sink([y], 0) == ([y], 0) && Heap.SiftUp([y], 0) == [y];
    assert Heap.Pop([x, y]) == [y] && Heap.Pop([y]) == [];
    assert [] + [Join(x, y)] == [Join(x, y)];
    assert Heap.SiftUp([Join(x, y)], 0) == [Join(x, y)];
  }

  /** ... and the two get the codes 0 and 1. */
  lemma TableOfTwo(a: byte, b: byte, v: nat, w: nat)
    requires a != b
    ensures Table(Join(Leaf(a, v), Leaf(b, w)), "", map[]) == map[a := "0", b := "1"]
  {
    assert "" + "0" == "0" && "" + "1" == "1";
    assert Table(Leaf(a, v), "0", map[]) == map[a := "0"];
  }

  /** "aab": b is the lighter symbol and gets the code 0, a gets 1; the three bits 110 fill the last byte from its
      most significant bit on. */
  lemma BitsOfThree(data: seq<byte>)
    requires data == [97, 97, 98]
    ensures CodeBits(data) == "110"
  {
    CountsOfThree(data);
    TwoCounts(Counts(data));
    BuildOfTwo(Leaf(97, 2), Leaf(98, 1));
    TableOfTwo(98, 97, 1, 2);
    var table := CodeTable(data);
    assert table == map[98 := "0", 97 := "1"];
    EncodeThree(table, data);
  }

  lemma EncodeThree(table: map<byte, string>, data: seq<byte>)
    requires data == [97, 97, 98] && table == map[98 := "0", 97 := "1"]
    ensures Covers(table, data) && Encode(table, data) == "110"
  {
    assert EncodeFirst(table, data, 0) == "";
    assert "" + "1" == "1" && "1" + "1" == "11" && "11" + "0" == "110";
    assert EncodeFirst(table, data, 1) == "1";
    assert EncodeFirst(table, data, 2) == "11";
    assert EncodeFirst(table, data, 3) == "110";
  }

  lemma BytesOfThreeBits(bits: string)
    requires bits == "110"
    ensures Body(bits) == [0xC0] && |bits| % 8 == 3
  {
    assert Rest(bits) == bits && FullBytes(bits) == [];
    assert bits[..2] == "11" && bits[..1] == "1" && bits[..0] == "";
    assert bits[..2][..1] == "1" && bits[..1][..0] == "";
    assert ByteOf("1") == 0x80;
    assert ByteOf("11") == 0xC0;
    assert ByteOf(bits) == 0xC0;
  }

  /** A whole compressed file, byte by byte: number of symbols, bits used of the last byte, a record for a and one
      for b, and the only byte of data. */
  lemma CompressedExample(data: seq<byte>)
    requires data == [97, 97, 98]
    ensures CompressedFile(data) ==
      [2, 0, 0, 0] + [3, 0, 0, 0] + [97, 2, 0, 0, 0, 0, 0, 0, 0] + [98, 1, 0, 0, 0, 0, 0, 0, 0] + [0xC0]
  {
    var m, bits := Counts(data), CodeBits(data);
    CountsOfThree(data);
    BitsOfThree(data);
    ExampleBytes(m, bits);
    assert CompressedFile(data) == FileHeader(m, |bits| % 8) + Body(bits);
  }

  lemma ExampleBytes(m: map<byte, nat>, bits: string)
    requires m == map[97 := 2, 98 := 1] && bits == "110"
    ensures FileHeader(m, |bits| % 8) + Body(bits) ==
      [2, 0, 0, 0] + [3, 0, 0, 0] + [97, 2, 0, 0, 0, 0, 0, 0, 0] + [98, 1, 0, 0, 0, 0, 0, 0, 0] + [0xC0]
  {
    TwoCounts(m);
    BytesOfThreeBits(bits);
    SmallWords();
    Glue(LE(2, 4), LE(3, 4), 97, LE(2, 8), 98, LE(1, 8), [0xC0]);
    assert [97] + LE(2, 8) == [97, 2, 0, 0, 0, 0, 0, 0, 0];
    assert [98] + LE(1, 8) == [98, 1, 0, 0, 0, 0, 0, 0, 0];
  }

  lemma Glue(n: seq<byte>, e: seq<byte>, x: byte, a: seq<byte>, y: byte, b: seq<byte>, z: seq<byte>)
    ensures n + e + ([x] + a + [y] + b) + z == n + e + ([x] + a) + ([y] + b) + z
  {
  }

  lemma SmallWords()
    ensures LE(2, 4) == [2, 0, 0, 0] && LE(3, 4) == [3, 0, 0, 0]
    ensures LE(1, 8) == [1, 0, 0, 0, 0, 0, 0, 0] && LE(2, 8) == [2, 0, 0, 0, 0, 0, 0, 0]
  {
    ZeroWord(3);
    ZeroWord(7);
  }

  lemma {:induction false} ZeroWord(k: nat)
    ensures LE(0, k) == Zeros(k)
  {
    if k > 0 { ZeroWord(k - 1); }
  }
}
