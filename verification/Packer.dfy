// src/packer.cpp: the recursive serialiser with its link-count set and one reused header.
module Packing {
  import opened Bytes
  import opened Posix
  import opened Headers
  import opened Archive

  class Packer {
    const dst_fd_: File
    const header_: Header
    var hard_link_set_: set<nat>
    ghost var done: seq<Entry>  // everything packed so far

    ghost predicate Valid()
      reads this, dst_fd_
    {
      && dst_fd_.data == Packed(done) && dst_fd_.pos == |dst_fd_.data|
      && hard_link_set_ == SeenCounts(done)
    }

    constructor (dst: File)
      requires dst.data == [] && dst.pos == 0
      ensures dst_fd_ == dst && fresh(header_) && done == [] && Valid()
    {
      dst_fd_, hard_link_set_, done := dst, {}, [];
      header_ := new Header();
    }

    /** lstat, fill the header, then dispatch on the file type in the mode bits. */
    method Pack(node: Node, path: Path)
      requires Valid() && TreeOk(node)
      modifies this`hard_link_set_, this`done, header_, dst_fd_
      ensures Valid() && done == old(done) + Flatten(node, path)
      decreases node, 1
    {
      ParseHeader(node, path);
      var kind := Kind(node.st.mode);
      if kind == S_IFDIR {
        PackDir(node, path);
      } else if kind == S_IFREG {
        PackRegular(node, path);
      } else if kind == S_IFIFO {
        SerializeEntry(Entry(path, node.st, IsFifo));
      } else if kind == S_IFLNK {
        PackLink(node, path);
      } else {
        assert Flatten(node, path) == [];
      }
    }

    /** Every field is overwritten, so nothing of the previous entry survives in the reused header. */
    method ParseHeader(node: Node, path: Path)
      modifies header_
      ensures header_.Rec() == RecordOf(Entry(path, node.st, if node.Reg? then IsReg(node.content) else IsFifo))
      ensures header_.st_uid_ == node.st.uid && header_.st_gid_ == node.st.gid
      ensures header_.st_atime_ == node.st.atime && header_.st_mtime_ == node.st.mtime
    {
      header_.file_path_, header_.ln_path_ := path, [];
      header_.file_path_len_, header_.ln_path_len_ := |path|, 0;
      header_.st_ino_, header_.st_mode_, header_.st_nlink_ := node.st.ino, node.st.mode, node.st.nlink;
      header_.st_uid_, header_.st_gid_ := node.st.uid, node.st.gid;
      header_.st_atime_, header_.st_mtime_ := node.st.atime, node.st.mtime;
      var blockNum, padding := 0, 0;
      if node.Reg? {
        blockNum := |node.content| / MY_BLOCK_SIZE;
        var temp := |node.content| % MY_BLOCK_SIZE;
        if temp != 0 {
          blockNum := blockNum + 1;
          padding := MY_BLOCK_SIZE - temp;
        }
      }
      header_.block_num_, header_.padding_ := blockNum, padding;
    }

    /** Write the header of an entry that carries no data. */
    method SerializeEntry(ghost e: Entry)
      requires Valid() && header_.Rec() == RecordOf(e) && !WritesData(done, e)
      modifies this`done, dst_fd_
      ensures dst_fd_.data == Packed(done) && dst_fd_.pos == |dst_fd_.data|
      ensures done == old(done) + [e] && hard_link_set_ == old(hard_link_set_)
      ensures !MultiLinked(e) ==> Valid()
    {
      PackedAppend(done, e);
      SeenAppend(done, e);
      header_.Serialize(dst_fd_);
      assert Packed(done) + EntryBytes(done, e) == dst_fd_.data;
      done := done + [e];
    }

    method PackDir(node: Node, path: Path)
      requires Valid() && TreeOk(node) && node.Dir? && header_.Rec() == RecordOf(Entry(path, node.st, IsFifo))
      modifies this`hard_link_set_, this`done, header_, dst_fd_
      ensures Valid() && done == old(done) + Flatten(node, path)
      decreases node, 0
    {
      SerializeEntry(Entry(path, node.st, IsDir));
      ghost var before := done;
      ghost var goal := before + FlattenAll(node.entries, path);
      assert node.entries[0..] == node.entries;
      for i := 0 to |node.entries|
        invariant Valid() && AllOk(node.entries[i..])
        invariant done + FlattenAll(node.entries[i..], path) == goal
      {
        var child := node.entries[i];
        ghost var sofar := done;
        var next := path + [SLASH] + child.name;
        assert node.entries[i..][1..] == node.entries[i + 1..];
        Pack(child, next);
        AppendChild(sofar, Flatten(child, next), FlattenAll(node.entries[i + 1..], path));
      }
      assert done == goal;
      AppendChild(old(done), [Entry(path, node.st, IsDir)], FlattenAll(node.entries, path));
    }

    /** A file whose link count was met before is taken for a hard link: header only. */
    method PackRegular(node: Node, path: Path)
      requires Valid() && TreeOk(node) && node.Reg?
      requires header_.Rec() == RecordOf(Entry(path, node.st, IsReg(node.content)))
      modifies this`hard_link_set_, this`done, header_, dst_fd_
      ensures Valid() && done == old(done) + Flatten(node, path)
    {
      ghost var e := Entry(path, node.st, IsReg(node.content));
      var isHardLink := NoteLink(node.st.nlink);
      SeenAppend(done, e);
      PackedAppend(done, e);
      WriteRegular(node, isHardLink, e);
      done := done + [e];
    }

    method NoteLink(nlink: nat) returns (known: bool)
      modifies this`hard_link_set_
      ensures known == (nlink > 1 && nlink in old(hard_link_set_))
      ensures hard_link_set_ == old(hard_link_set_) + if nlink > 1 then {nlink} else {}
    {
      known := false;
      if nlink > 1 {
        if nlink !in hard_link_set_ {
          hard_link_set_ := hard_link_set_ + {nlink};
        } else {
          known := true;
        }
      }
    }

    /** Header, then the data unless the file counts as a link. */
    method WriteRegular(node: Node, isHardLink: bool, ghost e: Entry)
      requires node.Reg? && e.body == IsReg(node.content) && header_.Rec() == RecordOf(e)
      requires dst_fd_.pos == |dst_fd_.data| && WritesData(done, e) == !isHardLink
      modifies dst_fd_
      ensures dst_fd_.data == old(dst_fd_.data) + EntryBytes(done, e) && dst_fd_.pos == |dst_fd_.data|
    {
      ghost var head := Serialized(RecordOf(e));
      header_.Serialize(dst_fd_);
      if !isHardLink {
        var src := new File(node.content);
        CopyBlocks(src, header_.block_num_);
        assert old(dst_fd_.data) + head + Padded(node.content) == old(dst_fd_.data) + (head + Padded(node.content));
      } else {
        assert head + [] == head;
      }
    }

    /** The file in 512-byte blocks, the last one filled up with zeros. */
    method CopyBlocks(src: File, blockNum: nat)
      requires src != dst_fd_ && src.pos == 0 && blockNum == BlocksOf(|src.data|) && dst_fd_.pos == |dst_fd_.data|
      modifies src, dst_fd_
      ensures dst_fd_.data == old(dst_fd_.data) + Padded(old(src.data)) && dst_fd_.pos == |dst_fd_.data|
    {
      ghost var content, base := src.data, dst_fd_.data;
      var left := blockNum;
      BlocksCover(|content|);
      while left > 0
        invariant src.data == content && src.pos <= |content| && dst_fd_.pos == |dst_fd_.data|
        invariant left > 0 ==> src.pos + 512 * left == |content| + PaddingOf(|content|)
        invariant dst_fd_.data == base + if left > 0 then content[..src.pos] else Padded(content)
        invariant left == 0 && blockNum == 0 ==> content == []
      {
        ghost var at := src.pos;
        var block := src.ReadBlock(MY_BLOCK_SIZE);
        if left == 1 {
          block := block + Zeros(MY_BLOCK_SIZE - |block|);
        }
        SpliceAtEnd(dst_fd_.data, block);
        dst_fd_.Write(block);
        left := left - 1;
      }
    }

    /** The header gets the link target before it is written. */
    method PackLink(node: Node, path: Path)
      requires Valid() && TreeOk(node) && node.Symlink? && header_.Rec() == RecordOf(Entry(path, node.st, IsFifo))
      modifies this`done, header_, dst_fd_
      ensures Valid() && done == old(done) + Flatten(node, path)
    {
      header_.ln_path_ := node.target;
      header_.ln_path_len_ := |node.target|;
      SerializeEntry(Entry(path, node.st, IsLink(node.target)));
    }
  }

  lemma AppendChild(a: seq<Entry>, b: seq<Entry>, c: seq<Entry>)
    ensures a + (b + c) == (a + b) + c
  {
  }
}
