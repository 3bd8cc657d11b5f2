// src/unpack.cpp: the Extract loop with its inode map, restoring one entry after the other.
module UnPacking {
  import opened Bytes
  import opened Posix
  import opened Headers
  import opened Archive
  import opened Target

  /** The target directory, behind the system calls the unpacker makes. */
  class TargetDir {
    var fs: FS

    constructor (contents: FS)
      ensures fs == contents
    {
      fs := contents;
    }

    /** mkdir and mkfifo. */
    method Make(path: Path, obj: Obj) returns (rc: int)
      modifies this
      ensures rc == if CanCreate(old(fs).names, path) then 0 else -1
      ensures fs == if rc == 0 then old(fs).(names := old(fs).names + [Name(path, obj)]) else old(fs)
    {
      if CanCreate(fs.names, path) {
        fs := fs.(names := fs.names + [Name(path, obj)]);
        return 0;
      }
      return -1;
    }

    method Symlink(target: seq<byte>, path: Path) returns (rc: int)
      modifies this
      ensures rc == if target != [] && CanCreate(old(fs).names, path) then 0 else -1
      ensures fs == if rc == 0
                    then FS(old(fs).names + [Name(path, LinkObj(|old(fs).targets|))], old(fs).inodes,
                            old(fs).targets + [target])
                    else old(fs)
    {
      if target != [] && CanCreate(fs.names, path) {
        fs := FS(fs.names + [Name(path, LinkObj(|fs.targets|))], fs.inodes, fs.targets + [target]);
        return 0;
      }
      return -1;
    }

    method Link(from: Path, to: Path) returns (rc: int)
      modifies this
      ensures var source := Find(old(fs).names, from);
        && rc == (if source.Found? && !source.obj.DirObj? && CanCreate(old(fs).names, to) then 0 else -1)
        && fs == if rc == 0 then old(fs).(names := old(fs).names + [Name(to, source.obj)]) else old(fs)
    {
      var source := Find(fs.names, from);
      if source.Found? && !source.obj.DirObj? {
        rc := Make(to, source.obj);
      } else {
        rc := -1;
      }
    }

    /** open with O_CREAT | O_TRUNC: the inode to write to, empty now. */
    method Open(path: Path) returns (rc: int, id: nat)
      modifies this
      ensures rc == if Opens(old(fs), path) then 0 else -1
      ensures rc == 0 ==> id < |fs.inodes| && fs == Stored(old(fs), path, []) && id == InodeAt(old(fs), path)
      ensures rc != 0 ==> fs == old(fs)
    {
      id := InodeAt(fs, path);
      if Opens(fs, path) {
        fs := Stored(fs, path, []);
        return 0, id;
      }
      return -1, 0;
    }

    /** What reaches the disk by the time the descriptor is closed. */
    method Store(id: nat, content: seq<byte>)
      requires id < |fs.inodes|
      modifies this
      ensures fs == old(fs).(inodes := old(fs).inodes[id := content])
    {
      fs := fs.(inodes := fs.inodes[id := content]);
    }
  }

  function InodeAt(fs: FS, path: Path): nat {
    var at := Find(fs.names, path);
    if at.Found? && at.obj.RegObj? then at.obj.id else |fs.inodes|
  }

  /** The file at `path` holds `content`. */
  function Stored(fs: FS, path: Path, content: seq<byte>): FS
    requires Opens(fs, path)
  {
    if Find(fs.names, path).Found? then fs.(inodes := fs.inodes[Find(fs.names, path).obj.id := content])
    else FS(fs.names + [Name(path, RegObj(|fs.inodes|))], fs.inodes + [content], fs.targets)
  }

  lemma StoredTwice(fs: FS, path: Path, content: seq<byte>)
    requires Opens(fs, path)
    ensures var once := Stored(fs, path, []);
      InodeAt(fs, path) < |once.inodes|
      && once.(inodes := once.inodes[InodeAt(fs, path) := content]) == Stored(fs, path, content)
  {
  }

  lemma WritesStored(file: seq<byte>, st: State, path: Path, blocks: nat, padding: nat)
    requires st.pos <= |file|
    ensures WriteFile(file, st, path, blocks, padding) ==
            if !Opens(st.fs, path) then WithError(st)
            else var c := CopyOut(file, st.pos, blocks, padding);
              st.(fs := Stored(st.fs, path, c.bytes), pos := c.pos, threw := c.threw)
  {
  }

  /** How restoring one entry ends: normally, with an exception Extract collects, or with one it does not. */
  datatype Ending = Restored | Collected | Escaped

  function After(st: State, o: Ending): State {
    match o
    case Restored => st
    case Collected => WithError(st)
    case Escaped => st.(threw := true)
  }

  /** src/utils.cpp, Copy without padding: whole blocks, and the padding cut off the last one. */
  method Copy(h: Header, src: File, dst: File) returns (escaped: bool)
    requires src != dst && src.pos <= |src.data| && dst.data == [] && dst.pos == 0
    modifies src, dst
    ensures src.data == old(src.data)
    ensures Copied(dst.data, src.pos, escaped) == CopyOut(src.data, old(src.pos), h.block_num_, h.padding_)
  {
    ghost var data, goal := src.data, CopyOut(src.data, src.pos, h.block_num_, h.padding_);
    var left: nat := h.block_num_;
    while left > 0
      invariant src.data == data && src.pos <= |data| && dst.pos == |dst.data|
      invariant left > 0 ==> StillToCopy(data, src.pos, left, h.padding_, dst.data, goal)
      invariant left == 0 ==> goal == Copied(dst.data, src.pos, false)
    {
      ghost var at, sofar := src.pos, dst.data;
      var buf := src.Read(512);
      if left > 1 {
        SpliceAtEnd(dst.data, buf);
        CopyOneBlock(data, at, left, h.padding_, sofar, goal);
        dst.Write(buf);
      } else if h.padding_ <= |buf| {
        var last := buf[..|buf| - h.padding_];
        SpliceAtEnd(dst.data, last);
        dst.Write(last);
      } else if h.padding_ != |buf| + 1 {
        assert sofar + [] == sofar;
        return true;
      } else {
        assert sofar + [] == sofar;
      }
      left := left - 1;
    }
    return false;
  }

  /** The bytes copied and the blocks left to copy make up the whole copy. */
  ghost predicate StillToCopy(data: seq<byte>, pos: nat, left: nat, padding: nat, sofar: seq<byte>, goal: Copied) {
    pos <= |data|
    && var rest := CopyOut(data, pos, left, padding); goal == Copied(sofar + rest.bytes, rest.pos, rest.threw)
  }

  lemma CopyOneBlock(data: seq<byte>, pos: nat, left: nat, padding: nat, sofar: seq<byte>, goal: Copied)
    requires left > 1 && StillToCopy(data, pos, left, padding, sofar, goal)
    ensures var block := Chunk(data, pos, 512);
      StillToCopy(data, pos + |block|, left - 1, padding, sofar + block, goal)
  {
    var block := Chunk(data, pos, 512);
    var rest := CopyOut(data, pos + |block|, left - 1, padding);
    assert sofar + (block + rest.bytes) == sofar + block + rest.bytes;
  }

  class UnPacker {
    const fd_backup_: File
    const target_: TargetDir
    const header_: Header
    var dst_file_: Path
    var hard_lk_map_: map<nat, Path>
    var errs_: nat

    /** Init: an empty inode map, no errors, the archive open at its start. */
    constructor (backup: File, target: TargetDir)
      ensures fd_backup_ == backup && target_ == target && fresh(header_)
      ensures hard_lk_map_ == map[] && errs_ == 0
    {
      fd_backup_, target_, dst_file_, hard_lk_map_, errs_ := backup, target, [], map[], 0;
      header_ := new Header();
    }

    function Now(): State
      reads this, target_, fd_backup_
    {
      State(target_.fs, hard_lk_map_, fd_backup_.pos, errs_, false)
    }

    method UnPackDir() returns (o: Ending)
      modifies target_
      ensures After(Now(), o) == CreateName(old(Now()), dst_file_, DirObj)
      ensures o == if CanCreate(old(target_.fs.names), dst_file_) then Restored else Collected
    {
      var rc := target_.Make(dst_file_, DirObj);
      o := if rc == -1 then Collected else Restored;
    }

    method UnPackFIFO() returns (o: Ending)
      modifies target_
      ensures After(Now(), o) == CreateName(old(Now()), dst_file_, FifoObj)
      ensures o == if CanCreate(old(target_.fs.names), dst_file_) then Restored else Collected
    {
      var rc := target_.Make(dst_file_, FifoObj);
      o := if rc == -1 then Collected else Restored;
    }

    method UnPackSLNK() returns (o: Ending)
      modifies target_
      ensures After(Now(), o) == CreateSymlink(old(Now()), dst_file_, header_.ln_path_)
      ensures o == if header_.ln_path_ != [] && CanCreate(old(target_.fs.names), dst_file_) then Restored else Collected
    {
      var rc := target_.Symlink(header_.ln_path_, dst_file_);
      o := if rc != 0 then Collected else Restored;
    }

    /** A known inode becomes a hard link; otherwise the inode is noted and the data copied. */
    method UnPackReg() returns (o: Ending)
      requires fd_backup_.pos <= |fd_backup_.data| && dst_file_ == header_.file_path_
      modifies this`hard_lk_map_, target_, fd_backup_
      ensures fd_backup_.data == old(fd_backup_.data) && fd_backup_.pos <= |fd_backup_.data|
      ensures After(Now(), o) == RestoreRegular(fd_backup_.data, old(Now()), header_.Rec())
      ensures var known := header_.st_nlink_ > 1 && header_.st_ino_ in old(hard_lk_map_);
        hard_lk_map_ == if header_.st_nlink_ > 1 && !known then old(hard_lk_map_)[header_.st_ino_ := dst_file_]
                        else old(hard_lk_map_)
    {
      if header_.st_nlink_ > 1 {
        if header_.st_ino_ in hard_lk_map_ {
          var rc := target_.Link(hard_lk_map_[header_.st_ino_], dst_file_);
          o := if rc != 0 then Collected else Restored;
          return;
        }
        hard_lk_map_ := hard_lk_map_[header_.st_ino_ := dst_file_];
      }
      o := CopyData(Now());
    }

    method CopyData(ghost noted: State) returns (o: Ending)
      requires fd_backup_.pos <= |fd_backup_.data| && dst_file_ == header_.file_path_ && noted == Now()
      modifies target_, fd_backup_
      ensures fd_backup_.data == old(fd_backup_.data) && fd_backup_.pos <= |fd_backup_.data|
      ensures After(Now(), o) == WriteFile(fd_backup_.data, noted, dst_file_, header_.block_num_, header_.padding_)
    {
      WritesStored(fd_backup_.data, noted, dst_file_, header_.block_num_, header_.padding_);
      var rc, id := target_.Open(dst_file_);
      if rc == -1 {
        return Collected;
      }
      var dst := new File([]);
      var escaped := Copy(header_, fd_backup_, dst);
      StoredTwice(noted.fs, dst_file_, dst.data);
      target_.Store(id, dst.data);
      o := if escaped then Escaped else Restored;
    }

    /** The body of the Extract loop, for the header just read. */
    method RestoreOne() returns (o: Ending)
      requires fd_backup_.pos <= |fd_backup_.data|
      modifies this`hard_lk_map_, this`dst_file_, target_, fd_backup_
      ensures fd_backup_.data == old(fd_backup_.data) && fd_backup_.pos <= |fd_backup_.data|
      ensures After(Now(), o) == Restore(fd_backup_.data, old(Now()), header_.Rec())
    {
      var kind := Kind(header_.st_mode_);
      dst_file_ := header_.file_path_;
      if kind == S_IFDIR {
        o := UnPackDir();
      } else if kind == S_IFREG {
        o := UnPackReg();
      } else if kind == S_IFIFO {
        o := UnPackFIFO();
      } else if kind == S_IFLNK {
        o := UnPackSLNK();
      } else {
        o := Collected;
      }
    }

    /** The try block of the loop: an UnPackException is collected, any other exception escapes. */
    method TryRestore() returns (escaped: bool)
      requires fd_backup_.pos <= |fd_backup_.data|
      modifies this`hard_lk_map_, this`dst_file_, this`errs_, target_, fd_backup_
      ensures fd_backup_.data == old(fd_backup_.data) && fd_backup_.pos <= |fd_backup_.data|
      ensures Now().(threw := escaped) == Restore(fd_backup_.data, old(Now()), header_.Rec())
      ensures errs_ == old(errs_) + if Fails(old(Now()), header_.Rec()) then 1 else 0
    {
      RestoreFailsIff(fd_backup_.data, Now(), header_.Rec());
      var o := RestoreOne();
      escaped := o == Escaped;
      if o == Collected {
        errs_ := errs_ + 1;
      }
    }

    /** Restore entry after entry until no header can be read, or an exception escapes. */
    method Extract() returns (escaped: bool)
      requires fd_backup_.pos <= |fd_backup_.data|
      modifies this`hard_lk_map_, this`dst_file_, this`errs_, target_, fd_backup_, header_
      ensures fd_backup_.data == old(fd_backup_.data)
      ensures var goal := Extracted(fd_backup_.data, old(Now())); Now().(pos := goal.pos, threw := escaped) == goal
    {
      ghost var file, st := fd_backup_.data, Now();
      ghost var goal := Extracted(file, st);
      var rc := header_.DeSerialize(fd_backup_);
      while rc == 0
        invariant fd_backup_.data == file && fd_backup_.pos <= |file| && st.pos <= |file|
        invariant !st.threw && goal == Extracted(file, st) && Now().(pos := st.pos) == st
        invariant rc == match Parse(file, st.pos) case End => 1 case Bad => -1 case Got(_, _) => 0
        invariant rc == 0 ==> Parse(file, st.pos) == Got(header_.Rec(), fd_backup_.pos)
        decreases |file| - st.pos
      {
        ExtractedStep(file, st, header_.Rec(), Now());
        escaped := TryRestore();
        st := Now().(threw := escaped);
        if escaped {
          ExtractedStops(file, st);
          return;
        }
        rc := header_.DeSerialize(fd_backup_);
      }
      ExtractedStops(file, st);
      return false;
    }

    /** 0 exactly when no record failed to be restored; an escaped exception leaves Handle as well. */
    method Handle() returns (ret: int, escaped: bool)
      requires fd_backup_.pos == 0 && hard_lk_map_ == map[] && errs_ == 0
      modifies this, target_, fd_backup_, header_
      ensures fd_backup_.data == old(fd_backup_.data)
      ensures var goal := Extracted(fd_backup_.data, StartIn(old(target_.fs)));
        target_.fs == goal.fs && escaped == goal.threw
      ensures !escaped ==> ret == if SomeFails(Visits(fd_backup_.data, StartIn(old(target_.fs)))) then -1 else 0
    {
      NoErrorIff(fd_backup_.data, target_.fs);
      escaped := Extract();
      ret := if errs_ == 0 then 0 else -1;
    }
  }
}
