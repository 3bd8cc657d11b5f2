// src/header.cpp: the record in front of every archived entry.
module Headers {
  import opened Bytes
  import opened Posix

  const MAX_NM_LTH: nat := 256
  const FIXED_SIZE: nat := 88  // the eleven fixed fields on x86-64 Linux

  datatype Time = Time(sec: nat, nsec: nat)

  datatype Record = Record(path: seq<byte>, link: seq<byte>, pathLen: nat, linkLen: nat,
                           ino: nat, mode: nat, nlink: nat, uid: nat, gid: nat,
                           atime: Time, mtime: Time, blocks: nat, padding: nat)

  /** Every field fits its C type, and the stored lengths are the real ones. */
  predicate Fits(r: Record) {
    && r.pathLen == |r.path| < U64 && r.linkLen == |r.link| < U64
    && r.ino < U64 && r.mode < Pow256(4) && r.nlink < U64 && r.uid < Pow256(4) && r.gid < Pow256(4)
    && r.atime.sec < U64 && r.atime.nsec < U64 && r.mtime.sec < U64 && r.mtime.nsec < U64
    && r.blocks < U64 && r.padding < Pow256(4)
  }

  // ---------- the fixed part ----------

  /** The fixed fields in file order. */
  function Values(r: Record): (vs: seq<nat>)
    ensures |vs| == 13
  {
    [r.pathLen, r.linkLen, r.ino, r.mode, r.nlink, r.uid, r.gid,
     r.atime.sec, r.atime.nsec, r.mtime.sec, r.mtime.nsec, r.blocks, r.padding]
  }

  /** Bytes taken by field k. */
  function WidthOf(k: nat): nat {
    if k == 3 || k == 5 || k == 6 || k == 12 then 4 else 8
  }

  function Offset(k: nat): nat {
    if k == 0 then 0 else Offset(k - 1) + WidthOf(k - 1)
  }

  /** The first k fields, each as a little-endian word. */
  function Words(vs: seq<nat>, k: nat): (s: seq<byte>)
    requires k <= |vs|
    ensures |s| == Offset(k)
  {
    if k == 0 then [] else Words(vs, k - 1) + LE(vs[k - 1], WidthOf(k - 1))
  }

  function Serialized(r: Record): seq<byte> {
    var vs := Values(r);
    Words(vs, |vs|) + r.path + r.link
  }

  function Word(file: seq<byte>, at: nat, w: nat): nat
    requires at + w <= |file|
  {
    FromLE(file[at..at + w])
  }

  /** Field j of file is vs[j]. */
  ghost predicate FieldAt(file: seq<byte>, pos: nat, vs: seq<nat>, j: nat) {
    j < |vs| && pos + Offset(j) + WidthOf(j) <= |file| && Word(file, pos + Offset(j), WidthOf(j)) == vs[j]
  }

  lemma WordAt(file: seq<byte>, at: nat, v: nat, w: nat)
    requires v < Pow256(w) && At(file, at, LE(v, w))
    ensures at + w <= |file| && Word(file, at, w) == v
  {
    FromLEofLE(v, w);
  }

  /** Field j of a stored list of words reads back as written. */
  lemma {:induction false} WordsAt(file: seq<byte>, pos: nat, vs: seq<nat>, k: nat, j: nat)
    requires j < k <= |vs| && At(file, pos, Words(vs, k))
    requires vs[j] < Pow256(WidthOf(j))
    ensures FieldAt(file, pos, vs, j)
    decreases k
  {
    var w := LE(vs[k - 1], WidthOf(k - 1));
    AtSplit(file, pos, Words(vs, k - 1), w);
    if k - 1 == j {
      WordAt(file, pos + Offset(j), vs[j], WidthOf(j));
    } else {
      WordsAt(file, pos, vs, k - 1, j);
    }
  }

  lemma Offsets()
    ensures Offset(0) == 0 && Offset(1) == 8 && Offset(2) == 16 && Offset(3) == 24 && Offset(4) == 28
    ensures Offset(5) == 36 && Offset(6) == 40 && Offset(7) == 44 && Offset(8) == 52 && Offset(9) == 60
    ensures Offset(10) == 68 && Offset(11) == 76 && Offset(12) == 84 && Offset(13) == FIXED_SIZE
  {
    assert Offset(2) == 16;
    assert Offset(4) == 28;
    assert Offset(6) == 40;
    assert Offset(8) == 52;
    assert Offset(10) == 68;
    assert Offset(12) == 84;
  }

  // ---------- the two names ----------

  /** What `append(buf)` appends: the bytes before the first NUL. */
  function CString(s: seq<byte>): (r: seq<byte>)
    ensures |r| <= |s|
  {
    if s == [] || s[0] == 0 then [] else [s[0]] + CString(s[1..])
  }

  /** It is the longest prefix without a NUL. */
  lemma {:induction false} CStringIs(s: seq<byte>)
    ensures CString(s) <= s && 0 !in CString(s) && (CString(s) == s || s[|CString(s)|] == 0)
  {
    if s != [] && s[0] != 0 {
      CStringIs(s[1..]);
      assert s == [s[0]] + s[1..];
    }
  }

  lemma {:induction false} CStringKeeps(s: seq<byte>)
    ensures 0 !in s ==> CString(s) == s
    ensures 0 in s ==> |CString(s)| < |s|
  {
    if s != [] && s[0] != 0 {
      CStringKeeps(s[1..]);
      assert s == [s[0]] + s[1..];
    }
  }

  /** A name read back in chunks of 256 bytes, each cut at its first NUL. */
  function Reassembled(s: seq<byte>): (r: seq<byte>)
    ensures |r| <= |s|
  {
    if |s| < MAX_NM_LTH then CString(s)
    else CString(s[..MAX_NM_LTH]) + Reassembled(s[MAX_NM_LTH..])
  }

  /** A name of any length survives exactly when it contains no NUL. */
  lemma {:induction false} ReassembledIffNoNul(s: seq<byte>)
    ensures Reassembled(s) == s <==> 0 !in s
    ensures 0 in s ==> |Reassembled(s)| < |s|
  {
    if |s| < MAX_NM_LTH {
      CStringKeeps(s);
    } else {
      var a, b := s[..MAX_NM_LTH], s[MAX_NM_LTH..];
      assert s == a + b;
      CStringKeeps(a);
      ReassembledIffNoNul(b);
    }
  }

  // ---------- parsing ----------

  datatype Parsed = End | Bad | Got(r: Record, next: nat)

  /** What DeSerialize finds at offset pos of any file. */
  function Parse(file: seq<byte>, pos: nat): (p: Parsed)
    requires pos <= |file|
    ensures p.Got? ==> pos + FIXED_SIZE <= p.next <= |file|
    ensures p.Got? ==> p.next >= pos + FIXED_SIZE + |p.r.path| + |p.r.link|
  {
    if pos == |file| then End
    else if pos + FIXED_SIZE > |file| then Bad
    else
      var pathLen, linkLen := Word(file, pos, 8), Word(file, pos + 8, 8);
      var at := pos + FIXED_SIZE;
      if at + pathLen + linkLen > |file| then Bad
      else
        Got(Record(Reassembled(file[at..at + pathLen]), Reassembled(file[at + pathLen..at + pathLen + linkLen]),
                   pathLen, linkLen, Word(file, pos + 16, 8), Word(file, pos + 24, 4), Word(file, pos + 28, 8),
                   Word(file, pos + 36, 4), Word(file, pos + 40, 4),
                   Time(Word(file, pos + 44, 8), Word(file, pos + 52, 8)),
                   Time(Word(file, pos + 60, 8), Word(file, pos + 68, 8)),
                   Word(file, pos + 76, 8), Word(file, pos + 84, 4)),
            at + pathLen + linkLen)
  }

  /** On any bytes: the end is found exactly at the end of the file, and a header exactly when its fixed part and the
      two names it announces are there. */
  lemma ParseIff(file: seq<byte>, pos: nat)
    requires pos <= |file|
    ensures Parse(file, pos).End? <==> pos == |file|
    ensures Parse(file, pos).Got? <==>
      pos + 88 <= |file| && pos + 88 + FromLE(file[pos..pos + 8]) + FromLE(file[pos + 8..pos + 16]) <= |file|
  {
  }

  lemma FieldFits(r: Record, k: nat)
    requires Fits(r) && k < 13
    ensures Values(r)[k] < Pow256(WidthOf(k))
  {
    Pow256Values();
  }

  ghost predicate FieldsAt(file: seq<byte>, pos: nat, vs: seq<nat>) {
    forall j :: 0 <= j < |vs| ==> FieldAt(file, pos, vs, j)
  }

  /** The thirteen fields by their byte offsets. */
  lemma FixedFields(file: seq<byte>, pos: nat, vs: seq<nat>)
    requires |vs| == 13 && FieldsAt(file, pos, vs)
    ensures pos + FIXED_SIZE <= |file|
    ensures Word(file, pos, 8) == vs[0] && Word(file, pos + 8, 8) == vs[1]
    ensures Word(file, pos + 16, 8) == vs[2] && Word(file, pos + 24, 4) == vs[3] && Word(file, pos + 28, 8) == vs[4]
    ensures Word(file, pos + 36, 4) == vs[5] && Word(file, pos + 40, 4) == vs[6]
    ensures Word(file, pos + 44, 8) == vs[7] && Word(file, pos + 52, 8) == vs[8]
    ensures Word(file, pos + 60, 8) == vs[9] && Word(file, pos + 68, 8) == vs[10]
    ensures Word(file, pos + 76, 8) == vs[11] && Word(file, pos + 84, 4) == vs[12]
  {
    Offsets();
    assert FieldAt(file, pos, vs, 0) && FieldAt(file, pos, vs, 1) && FieldAt(file, pos, vs, 2);
    assert FieldAt(file, pos, vs, 3) && FieldAt(file, pos, vs, 4) && FieldAt(file, pos, vs, 5);
    assert FieldAt(file, pos, vs, 6) && FieldAt(file, pos, vs, 7) && FieldAt(file, pos, vs, 8);
    assert FieldAt(file, pos, vs, 9) && FieldAt(file, pos, vs, 10) && FieldAt(file, pos, vs, 11);
    assert FieldAt(file, pos, vs, 12);
  }

  lemma ParseSerialized(file: seq<byte>, pos: nat, r: Record)
    requires Fits(r) && At(file, pos, Serialized(r))
    ensures Parse(file, pos) ==
            Got(r.(path := Reassembled(r.path), link := Reassembled(r.link)), pos + FIXED_SIZE + |r.path| + |r.link|)
    ensures |Serialized(r)| == FIXED_SIZE + |r.path| + |r.link|
  {
    Offsets();
    var vs := Values(r);
    var fixed := Words(vs, |vs|);
    assert Serialized(r) == fixed + (r.path + r.link);
    AtSplit(file, pos, fixed, r.path + r.link);
    ValuesAt(file, pos, r);
    var at := pos + FIXED_SIZE;
    AtSplit(file, at, r.path, r.link);
    ParseAt(file, pos, vs, at, at + |r.path|, at + |r.path| + |r.link|, Reassembled(r.path), Reassembled(r.link));
  }

  lemma ValuesAt(file: seq<byte>, pos: nat, r: Record)
    requires Fits(r) && At(file, pos, Words(Values(r), |Values(r)|))
    ensures FieldsAt(file, pos, Values(r))
  {
    var vs := Values(r);
    forall j | 0 <= j < |vs| ensures FieldAt(file, pos, vs, j) {
      FieldFits(r, j);
      WordsAt(file, pos, vs, |vs|, j);
    }
  }

  function RecordFrom(vs: seq<nat>, path: seq<byte>, link: seq<byte>): Record
    requires |vs| == 13
  {
    Record(path, link, vs[0], vs[1], vs[2], vs[3], vs[4], vs[5], vs[6],
           Time(vs[7], vs[8]), Time(vs[9], vs[10]), vs[11], vs[12])
  }

  /** Parsing a complete header, in terms of its fixed fields and its two names. */
  lemma ParseAt(file: seq<byte>, pos: nat, vs: seq<nat>, at: nat, mid: nat, end: nat, path: seq<byte>, link: seq<byte>)
    requires |vs| == 13 && FieldsAt(file, pos, vs)
    requires at == pos + FIXED_SIZE && mid == at + vs[0] && end == mid + vs[1] && end <= |file|
    requires path == Reassembled(file[at..mid]) && link == Reassembled(file[mid..end])
    ensures Parse(file, pos) == Got(RecordFrom(vs, path, link), end)
  {
    FixedFields(file, pos, vs);
  }

  lemma ParseShort(file: seq<byte>, pos: nat, vs: seq<nat>)
    requires |vs| == 13 && FieldsAt(file, pos, vs)
    ensures pos + FIXED_SIZE <= |file|
    ensures pos + FIXED_SIZE + vs[0] + vs[1] > |file| ==> Parse(file, pos) == Bad
  {
    FixedFields(file, pos, vs);
  }

  /** A serialised header, wherever it lies in a file, ends where its bytes end, and parses back to
      itself exactly when neither name contains a NUL. */
  lemma HeaderRoundTrip(file: seq<byte>, pos: nat, r: Record)
    requires Fits(r) && At(file, pos, Serialized(r))
    ensures Parse(file, pos).Got? && Parse(file, pos).next == pos + |Serialized(r)|
    ensures Parse(file, pos).r == r <==> 0 !in r.path && 0 !in r.link
  {
    ParseSerialized(file, pos, r);
    ReassembledIffNoNul(r.path);
    ReassembledIffNoNul(r.link);
  }

  // ---------- the header object ----------

  /** The fixed fields, one write each. */
  method WriteFields(fd: File, vs: seq<nat>)
    requires fd.pos == |fd.data|
    modifies fd
    ensures fd.pos == |fd.data| && fd.data == old(fd.data) + Words(vs, |vs|)
  {
    for k := 0 to |vs|
      invariant fd.pos == |fd.data| && fd.data == old(fd.data) + Words(vs, k)
    {
      var word := LE(vs[k], WidthOf(k));
      SpliceAtEnd(fd.data, word);
      fd.Write(word);
    }
  }

  /** Read exactly n bytes; fails exactly when the file ends before. */
  method ReadExact(fd: File, n: nat) returns (ok: bool, buf: seq<byte>)
    requires fd.pos <= |fd.data|
    modifies fd
    ensures fd.data == old(fd.data) && fd.pos <= |fd.data|
    ensures ok <==> old(fd.pos) + n <= |fd.data|
    ensures ok ==> fd.pos == old(fd.pos) + n && buf == fd.data[old(fd.pos)..fd.pos]
  {
    buf := fd.Read(n);
    ok := |buf| == n;
  }

  /** The fixed fields, one read each; fails exactly when the file ends inside them. */
  method ReadFields(fd: File) returns (ok: bool, vs: seq<nat>)
    requires fd.pos <= |fd.data|
    modifies fd
    ensures fd.data == old(fd.data) && fd.pos <= |fd.data|
    ensures ok <==> old(fd.pos) + Offset(13) <= |fd.data|
    ensures ok ==> fd.pos == old(fd.pos) + Offset(13) && |vs| == 13 && FieldsAt(fd.data, old(fd.pos), vs)
  {
    ghost var start := fd.pos;
    ok, vs := false, [];
    var k := 0;
    while k < 13
      invariant k <= 13 && fd.data == old(fd.data) && fd.pos == start + Offset(k) <= |fd.data|
      invariant |vs| == k && FieldsAt(fd.data, start, vs)
    {
      var complete, buf := ReadExact(fd, WidthOf(k));
      OffsetsGrow(k + 1);
      if !complete {
        return;
      }
      MoreFields(fd.data, start, vs, FromLE(buf));
      vs := vs + [FromLE(buf)];
      k := k + 1;
    }
    ok := true;
  }

  lemma MoreFields(file: seq<byte>, pos: nat, vs: seq<nat>, v: nat)
    requires FieldsAt(file, pos, vs) && pos + Offset(|vs|) + WidthOf(|vs|) <= |file|
    requires v == Word(file, pos + Offset(|vs|), WidthOf(|vs|))
    ensures FieldsAt(file, pos, vs + [v])
  {
    forall j | 0 <= j < |vs| + 1 ensures FieldAt(file, pos, vs + [v], j) {
      if j < |vs| { FieldKept(file, pos, vs, v, j); } else { FieldNew(file, pos, vs, v); }
    }
  }

  lemma FieldNew(file: seq<byte>, pos: nat, vs: seq<nat>, v: nat)
    requires pos + Offset(|vs|) + WidthOf(|vs|) <= |file| && v == Word(file, pos + Offset(|vs|), WidthOf(|vs|))
    ensures FieldAt(file, pos, vs + [v], |vs|)
  {
  }

  lemma FieldKept(file: seq<byte>, pos: nat, vs: seq<nat>, v: nat, j: nat)
    requires FieldAt(file, pos, vs, j)
    ensures FieldAt(file, pos, vs + [v], j)
  {
    assert (vs + [v])[j] == vs[j];
  }

  lemma {:induction false} OffsetsGrow(k: nat)
    requires k <= 13
    ensures Offset(k) <= Offset(13)
    decreases 13 - k
  {
    if k < 13 { OffsetsGrow(k + 1); }
  }

  /** One piece of a name, up to its first NUL. */
  method ReadPiece(fd: File, n: nat, ghost end: nat, ghost name: seq<byte>, ghost whole: seq<byte>)
    returns (ok: bool, piece: seq<byte>)
    requires fd.pos <= |fd.data| && n <= MAX_NM_LTH && fd.pos + n <= end
    requires n < MAX_NM_LTH ==> fd.pos + n == end
    requires end <= |fd.data| ==> Unread(fd.data, fd.pos, end, name, whole)
    modifies fd
    ensures fd.data == old(fd.data) && fd.pos <= |fd.data|
    ensures ok <==> old(fd.pos) + n <= |fd.data|
    ensures ok ==> fd.pos == old(fd.pos) + n
    ensures ok && end <= |fd.data| ==> Unread(fd.data, fd.pos, end, name + piece, whole)
  {
    ghost var at := fd.pos;
    var buf;
    ok, buf := ReadExact(fd, n);
    piece := CString(buf);
    if ok && end <= |fd.data| {
      if n == MAX_NM_LTH {
        NextChunk(fd.data, at, fd.pos, end, name, whole);
      } else {
        LastChunk(fd.data, at, end, name, whole);
      }
    }
  }

  /** A name of `len` bytes, in full chunks and a remainder, each appended up to its first NUL. */
  method ReadName(fd: File, len: nat) returns (ok: bool, name: seq<byte>)
    requires fd.pos <= |fd.data|
    modifies fd
    ensures fd.data == old(fd.data) && fd.pos <= |fd.data|
    ensures ok <==> old(fd.pos) + len <= |fd.data|
    ensures ok ==> fd.pos == old(fd.pos) + len && name == Reassembled(fd.data[old(fd.pos)..fd.pos])
  {
    ghost var data, end := fd.data, fd.pos + len;
    ghost var whole := if end <= |data| then Reassembled(data[fd.pos..end]) else [];
    ok, name := false, [];
    var remain := len;
    if end <= |data| { AllUnread(data, fd.pos, end); }
    while remain >= MAX_NM_LTH
      invariant fd.data == data && fd.pos <= |data| && fd.pos + remain == end
      invariant end <= |data| ==> Unread(data, fd.pos, end, name, whole)
    {
      var complete, piece := ReadPiece(fd, MAX_NM_LTH, end, name, whole);
      if !complete { return; }
      name := name + piece;
      remain := remain - MAX_NM_LTH;
    }
    var complete, piece := ReadPiece(fd, remain, end, name, whole);
    if !complete { return; }
    name := name + piece;
    NothingUnread(data, end, name, whole);
    ok := true;
  }

  lemma AllUnread(data: seq<byte>, at: nat, end: nat)
    requires at <= end <= |data|
    ensures Unread(data, at, end, [], Reassembled(data[at..end]))
  {
  }

  lemma NothingUnread(data: seq<byte>, end: nat, name: seq<byte>, whole: seq<byte>)
    requires Unread(data, end, end, name, whole)
    ensures name == whole
  {
  }

  /** What is read so far and what is still to read make up the whole name. */
  ghost predicate Unread(data: seq<byte>, at: nat, end: nat, name: seq<byte>, whole: seq<byte>) {
    at <= end <= |data| && name + Reassembled(data[at..end]) == whole
  }

  lemma LastChunk(data: seq<byte>, at: nat, end: nat, name: seq<byte>, whole: seq<byte>)
    requires Unread(data, at, end, name, whole) && end - at < MAX_NM_LTH
    ensures Unread(data, end, end, name + CString(data[at..end]), whole)
  {
    assert data[end..end] == [];
  }

  lemma NextChunk(data: seq<byte>, at: nat, next: nat, end: nat, name: seq<byte>, whole: seq<byte>)
    requires next == at + MAX_NM_LTH <= end && Unread(data, at, end, name, whole)
    ensures Unread(data, next, end, name + CString(data[at..next]), whole)
  {
    assert data[at..end][..MAX_NM_LTH] == data[at..next];
    assert data[at..end][MAX_NM_LTH..] == data[next..end];
  }

  class Header {
    var file_path_: seq<byte>
    var ln_path_: seq<byte>
    var file_path_len_: nat
    var ln_path_len_: nat
    var st_ino_: nat
    var st_mode_: nat
    var st_nlink_: nat
    var st_uid_: nat
    var st_gid_: nat
    var st_atime_: Time
    var st_mtime_: Time
    var block_num_: nat
    var padding_: nat

    constructor ()
    {
      file_path_, ln_path_, file_path_len_, ln_path_len_ := [], [], 0, 0;
      st_ino_, st_mode_, st_nlink_, st_uid_, st_gid_ := 0, 0, 0, 0, 0;
      st_atime_, st_mtime_, block_num_, padding_ := Time(0, 0), Time(0, 0), 0, 0;
    }

    function Rec(): Record
      reads this
    {
      Record(file_path_, ln_path_, file_path_len_, ln_path_len_, st_ino_, st_mode_, st_nlink_, st_uid_, st_gid_,
             st_atime_, st_mtime_, block_num_, padding_)
    }

    method Serialize(fd: File)
      requires fd.pos == |fd.data| && file_path_len_ == |file_path_| && ln_path_len_ == |ln_path_|
      modifies fd
      ensures fd.data == old(fd.data) + Serialized(Rec()) && fd.pos == |fd.data|
    {
      ghost var before, fixed := fd.data, Words(Values(Rec()), 13);
      WriteFields(fd, Values(Rec()));
      SpliceAtEnd(fd.data, file_path_);
      fd.Write(file_path_);
      SpliceAtEnd(fd.data, ln_path_);
      fd.Write(ln_path_);
      Associative(before, fixed, file_path_);
      Associative(before, fixed + file_path_, ln_path_);
    }

    /** 0 with all fields set, 1 at the end of the file, -1 when the file ends inside the header. */
    method DeSerialize(fd: File) returns (rc: int)
      requires fd.pos <= |fd.data|
      modifies this, fd
      ensures fd.data == old(fd.data) && fd.pos <= |fd.data|
      ensures rc == match Parse(fd.data, old(fd.pos)) case End => 1 case Bad => -1 case Got(_, _) => 0
      ensures rc == 0 ==> Parse(fd.data, old(fd.pos)) == Got(Rec(), fd.pos)
    {
      if fd.pos == |fd.data| {
        return 1;
      }
      ghost var start := fd.pos;
      var ok, vs := ReadFields(fd);
      Offsets();
      if !ok { return -1; }
      ParseShort(fd.data, start, vs);
      ok := ReadNames(fd, vs, start);
      rc := if ok then 0 else -1;
    }

    method StoreFields(r: Record)
      modifies this
      ensures Rec() == r
    {
      file_path_, ln_path_, file_path_len_, ln_path_len_ := r.path, r.link, r.pathLen, r.linkLen;
      st_ino_, st_mode_, st_nlink_, st_uid_, st_gid_ := r.ino, r.mode, r.nlink, r.uid, r.gid;
      st_atime_, st_mtime_, block_num_, padding_ := r.atime, r.mtime, r.blocks, r.padding;
    }

    /** Store the fixed fields, then read the two names they announce. */
    method ReadNames(fd: File, vs: seq<nat>, ghost start: nat) returns (ok: bool)
      requires |vs| == 13 && FieldsAt(fd.data, start, vs) && fd.pos == start + FIXED_SIZE <= |fd.data|
      modifies this, fd
      ensures fd.data == old(fd.data) && fd.pos <= |fd.data|
      ensures ok <==> start + FIXED_SIZE + vs[0] + vs[1] <= |fd.data|
      ensures ok ==> Parse(fd.data, start) == Got(Rec(), fd.pos)
    {
      ghost var at := fd.pos;
      var path, link;
      ok, path := ReadName(fd, vs[0]);
      if !ok { return; }
      ghost var mid := fd.pos;
      ok, link := ReadName(fd, vs[1]);
      if !ok { return; }
      ParseAt(fd.data, start, vs, at, mid, fd.pos, path, link);
      StoreFields(RecordFrom(vs, path, link));
    }
  }
}
