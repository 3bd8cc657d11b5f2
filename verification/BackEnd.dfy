// src/backend.cpp: chains of stages, the flag byte at the end of the archive, and the way back.
module BackEnds {
  import opened Bytes
  import opened Posix
  import opened Archive
  import opened Target
  import opened Mirror
  import opened Utils
  import opened Packing
  import opened UnPacking
  import SourceTrees
  import Recreation
  import Compression
  import Decompression
  import Encryption
  import Decryption
  import Cbc

  type Files = map<Path, seq<byte>>

  const PACK_INDEX := 0
  const CMP_INDEX := 1
  const ENC_INDEX := 2

  /** Archives stay clear of the largest file size, so that no stage overflows its length field. */
  const PAK_MAX: nat := Encryption.OFF_MAX - 4096

  /** The return code of a stage, or of stages combined with `|=`: 0 or -1; and the bytes it leaves. */
  datatype Staged = Staged(err: int, out: seq<byte>)

  function Or(a: int, b: int): int {
    if a == 0 then b else a
  }

  // ---------- the stages as functions ----------

  ghost function PackOut(root: Node): seq<byte> {
    Packed(Flatten(root, root.name))
  }

  ghost function CompressOut(data: seq<byte>): Staged
    requires |data| < PAK_MAX
  {
    if data == [] then Staged(-1, []) else Staged(0, Compression.CompressedFile(data))
  }

  ghost function EncryptOut(c: Cbc.Cipher, key: seq<byte>, data: seq<byte>): Staged {
    if key == [] then Staged(-1, []) else Staged(0, Encryption.EncryptedFile(c, key, data))
  }

  /** The last file of a chain with `chain` stages behind the packer, and the combined code. */
  ghost function Encoded(c: Cbc.Cipher, key: seq<byte>, pak: seq<byte>, chain: nat): Staged
    requires |pak| < PAK_MAX && chain <= 2
  {
    if chain == 0 then Staged(0, pak)
    else if chain == 1 then CompressOut(pak)
    else
      var z := CompressOut(pak);
      var e := EncryptOut(c, key, z.out);
      Staged(Or(e.err, z.err), e.out)
  }

  ghost function DecryptIn(c: Cbc.Cipher, key: seq<byte>, data: seq<byte>): Staged {
    var r := Decryption.Decrypted(c, key, data); Staged(if r.ok then 0 else -1, r.out)
  }

  ghost function DecompressIn(data: seq<byte>, stale: byte): Staged {
    match Decompression.Decompressed(data, stale)
    case None => Staged(-1, [])
    case Some(text) => Staged(0, text)
  }

  /** What reaches the unpacker, and the code that decides whether it runs at all. */
  ghost function Decoded(c: Cbc.Cipher, key: seq<byte>, archive: seq<byte>, flag: byte, stale: byte): Staged {
    var d := if GetBit(flag, ENC_INDEX) != 0 then DecryptIn(c, key, archive) else Staged(0, archive);
    if d.err == 0 && GetBit(flag, CMP_INDEX) != 0 then DecompressIn(d.out, stale) else d
  }

  /** The flag byte of a chain: one bit a stage. */
  function Flag(chain: nat): byte {
    var p := SetBit(0, PACK_INDEX, true);
    var z := if chain >= 1 then SetBit(p, CMP_INDEX, true) else p;
    if chain >= 2 then SetBit(z, ENC_INDEX, true) else z
  }

  lemma FlagBits(chain: nat)
    requires chain <= 2
    ensures forall i: nat :: i < 8 ==> GetBit(Flag(chain), i) == if i <= chain then 1 else 0
  {
    var p := SetBit(0, PACK_INDEX, true);
    var z := SetBit(p, CMP_INDEX, true);
    forall i: nat | i < 8 ensures GetBit(Flag(chain), i) == if i <= chain then 1 else 0 {
      NoBits(i);
      SetThenGet(0, PACK_INDEX, true, i);
      SetThenGet(p, CMP_INDEX, true, i);
      SetThenGet(z, ENC_INDEX, true, i);
    }
  }

  lemma NoBits(i: int)
    ensures GetBit(0, i) <= 0 && (0 <= i < 8 ==> GetBit(0, i) == 0)
  {
  }

  // ---------- decoding undoes encoding ----------

  lemma CompressedFits(data: seq<byte>)
    requires |data| < PAK_MAX
    ensures |CompressOut(data).out| < Encryption.OFF_MAX
  {
    if data != [] { Compression.CompressedSize(data); }
  }

  /** A packed root is never empty, unless the root is a special file. */
  lemma PackedSomething(root: Node)
    ensures PackOut(root) == [] <==> root.Special?
  {
    var es := Flatten(root, root.name);
    if !root.Special? {
      var n := |es| - 1;
      assert |EntryBytes(es[..n], es[n])| >= 88 by { HeaderNotEmpty(es[..n], es[n]); }
    }
  }

  lemma HeaderNotEmpty(done: seq<Entry>, e: Entry)
    ensures |EntryBytes(done, e)| >= 88
  {
    Headers.Offsets();
  }

  lemma EncodedErr(c: Cbc.Cipher, key: seq<byte>, pak: seq<byte>, chain: nat)
    requires |pak| < PAK_MAX && chain <= 2
    ensures Encoded(c, key, pak, chain).err == 0 <==> chain == 0 || (pak != [] && (chain == 2 ==> key != []))
  {
  }

  /** A chain fails exactly when it compresses nothing or encrypts under no password. */
  lemma EncodeSucceeds(c: Cbc.Cipher, key: seq<byte>, root: Node, chain: nat)
    requires |PackOut(root)| < PAK_MAX && chain <= 2
    ensures Encoded(c, key, PackOut(root), chain).err == 0
            <==> chain == 0 || (!root.Special? && (chain == 2 ==> key != []))
  {
    EncodedErr(c, key, PackOut(root), chain);
    PackedSomething(root);
  }

  /** The stages named by the flag byte, undone in reverse order, give the packer's archive back. */
  lemma DecodeEncoded(c: Cbc.Cipher, key: seq<byte>, pak: seq<byte>, chain: nat, stale: byte)
    requires Cbc.Invertible(c) && |pak| < PAK_MAX && chain <= 2 && Encoded(c, key, pak, chain).err == 0
    ensures Decoded(c, key, Encoded(c, key, pak, chain).out, Flag(chain), stale) == Staged(0, pak)
  {
    FlagBits(chain);
    if chain >= 1 {
      Decompression.RoundTrip(pak, stale);
    }
    if chain == 2 {
      var z := CompressOut(pak);
      CompressedFits(pak);
      Decryption.DecryptEncrypted(c, key, key, z.out);
    }
  }

  // ---------- the disk ----------

  /** Regular files by path; an open file is written back when it is closed. */
  class Disk {
    var files: Files

    constructor (contents: Files)
      ensures files == contents
    {
      files := contents;
    }

    method OpenRead(path: Path) returns (f: File)
      requires path in files
      ensures fresh(f) && f.data == files[path] && f.pos == 0
    {
      f := new File(files[path]);
    }

    /** O_CREAT | O_TRUNC */
    method Create(path: Path) returns (f: File)
      modifies this
      ensures fresh(f) && f.data == [] && f.pos == 0 && files == old(files)[path := []]
    {
      files := files[path := []];
      f := new File([]);
    }

    method Close(path: Path, f: File)
      modifies this
      ensures files == old(files)[path := f.data]
    {
      files := files[path := f.data];
    }

    method Remove(path: Path)
      modifies this
      ensures files == old(files) - {path}
    {
      files := files - {path};
    }

    method Truncate(path: Path, size: nat)
      requires path in files && size <= |files[path]|
      modifies this
      ensures files == old(files)[path := old(files)[path][..size]]
    {
      files := files[path := files[path][..size]];
    }

    method Append(path: Path, b: byte)
      requires path in files
      modifies this
      ensures files == old(files)[path := old(files)[path] + [b]]
    {
      files := files[path := files[path] + [b]];
    }
  }

  // ---------- encoding ----------

  function ExtOf(chain: nat): seq<byte> {
    if chain == 0 then PAK else if chain == 1 then CMP else ENC
  }

  /** The intermediate files a chain goes through after the packer's. */
  function LaterTemps(x: seq<byte>, chain: nat): set<Path> {
    if chain == 2 then {FileIn(TMP, x, CMP)} else {}
  }

  function Temps(x: seq<byte>, chain: nat): set<Path> {
    if chain == 0 then {} else {FileIn(TMP, x, PAK)} + LaterTemps(x, chain)
  }

  /** The disk after a chain has run: its temporary files are gone, and the last stage's file is there. */
  ghost function ChainFiles(files: Files, c: Cbc.Cipher, key: seq<byte>, root: Node, dst: Path, chain: nat)
    : Files
    requires chain <= 2 && |PackOut(root)| < PAK_MAX
  {
    (files - Temps(root.name, chain))[FileIn(dst, root.name, ExtOf(chain)) := Encoded(c, key, PackOut(root), chain).out]
  }

  /** The same with the flag byte added to that file. */
  ghost function EncodedFiles(files: Files, c: Cbc.Cipher, key: seq<byte>, root: Node, dst: Path, chain: nat)
    : Files
    requires chain <= 2 && |PackOut(root)| < PAK_MAX
  {
    (files - Temps(root.name, chain))
      [FileIn(dst, root.name, ExtOf(chain)) := Encoded(c, key, PackOut(root), chain).out + [Flag(chain)]]
  }

  lemma AppendedTo(files: Files, path: Path, a: seq<byte>, b: seq<byte>)
    ensures var m := files[path := a]; m[path := m[path] + b] == files[path := a + b]
  {
  }

  lemma FlagAppended(files: Files, c: Cbc.Cipher, key: seq<byte>, root: Node, dst: Path, chain: nat)
    requires chain <= 2 && |PackOut(root)| < PAK_MAX
    ensures var final, now := FileIn(dst, root.name, ExtOf(chain)), ChainFiles(files, c, key, root, dst, chain);
      final in now && now[final := now[final] + [Flag(chain)]] == EncodedFiles(files, c, key, root, dst, chain)
  {
    AppendedTo(files - Temps(root.name, chain), FileIn(dst, root.name, ExtOf(chain)),
               Encoded(c, key, PackOut(root), chain).out, [Flag(chain)]);
  }

  /** The stages behind the packer, by the first letter of the method. */
  function ChainOf(m: char): nat {
    if m == 'p' then 0 else if m == 'c' then 1 else 2
  }

  /** What each chain writes before the flag byte, spelled out: the archive; the compressed archive; digest, length
      and cipher text of that.  A stage that fails leaves an empty file. */
  lemma ChainBytes(c: Cbc.Cipher, key: seq<byte>, pak: seq<byte>)
    requires |pak| < PAK_MAX
    ensures Encoded(c, key, pak, 0) == Staged(0, pak)
    ensures var z := if pak == [] then [] else Compression.CompressedFile(pak);
      && Encoded(c, key, pak, 1) == Staged(if pak == [] then -1 else 0, z)
      && Encoded(c, key, pak, 2)
         == Staged(if pak == [] || key == [] then -1 else 0,
                   if key == [] then [] else c.digest(key) + LE(|z|, 8) + Encryption.CipherText(c, key, z))
  {
    EncodedErr(c, key, pak, 2);
  }

  /** What a method leaves: the code, the name of the file, and its bytes with the flag byte behind them.
      'p' is the archive; 'c' the compressed archive; 'e' digest, length and cipher text of the compressed archive.
      A stage that fails writes nothing. */
  ghost predicate Written(m: char, c: Cbc.Cipher, key: seq<byte>, pak: seq<byte>, base: Path,
                          err: int, final: Path, files: Files)
    requires |pak| < PAK_MAX
  {
    var z := if pak == [] then [] else Compression.CompressedFile(pak);
    var locked := if key == [] then [] else c.digest(key) + LE(|z|, 8) + Encryption.CipherText(c, key, z);
    && (m !in {'p', 'c', 'e'} ==> err == -1)
    && (m in {'p', 'c', 'e'} ==> final in files)
    && (m == 'p' ==> err == 0 && final == base + [46, 112, 97, 107] && files[final] == pak + [0x80])
    && (m == 'c' ==> err == (if pak == [] then -1 else 0)
                     && final == base + [46, 99, 109, 112] && files[final] == z + [0xC0])
    && (m == 'e' ==> err == (if pak == [] || key == [] then -1 else 0)
                     && final == base + [46, 101, 110, 99] && files[final] == locked + [0xE0])
  }

  lemma MethodWritten(m: char, c: Cbc.Cipher, key: seq<byte>, pak: seq<byte>, dst: Path, x: seq<byte>,
                      before: Files, err: int, final: Path, files: Files)
    requires m in {'p', 'c', 'e'} && |pak| < PAK_MAX
    requires var chain := ChainOf(m); var e := Encoded(c, key, pak, chain);
      && err == e.err && final == FileIn(dst, x, ExtOf(chain))
      && files == (before - Temps(x, chain))[final := e.out + [Flag(chain)]]
    ensures Written(m, c, key, pak, dst + [SLASH] + x, err, final, files)
  {
    ChainBytes(c, key, pak);
    ChainNames(dst, x);
  }

  /** The names of the three files, and their flag bytes. */
  lemma ChainNames(dst: Path, x: seq<byte>)
    ensures FileIn(dst, x, ExtOf(0)) == dst + [SLASH] + x + [46, 112, 97, 107]
    ensures FileIn(dst, x, ExtOf(1)) == dst + [SLASH] + x + [46, 99, 109, 112]
    ensures FileIn(dst, x, ExtOf(2)) == dst + [SLASH] + x + [46, 101, 110, 99]
    ensures Flag(0) == 0x80 && Flag(1) == 0xC0 && Flag(2) == 0xE0
  {
  }

  class BackEnd {
    const disk_: Disk
    const target_: TargetDir
    const cipher: Cbc.Cipher
    const key: seq<byte>  // js_parser_.getKey()
    var err_code_: int
    var final_dst_: Path

    constructor (c: Cbc.Cipher, disk: Disk, target: TargetDir, k: seq<byte>)
      ensures cipher == c && disk_ == disk && target_ == target && key == k && err_code_ == 0 && final_dst_ == []
    {
      cipher, disk_, target_, key, err_code_, final_dst_ := c, disk, target, k, 0, [];
    }

    /** The encryptor is always the end of its chain. */
    method EncryptHandle(src: Path, dst: Path, x: seq<byte>) returns (err: int)
      requires src == FileIn(TMP, x, CMP) && SLASH !in x
      requires src in disk_.files && |disk_.files[src]| < Encryption.OFF_MAX
      modifies disk_
      ensures var e := EncryptOut(cipher, key, old(disk_.files)[src]);
        err == e.err && disk_.files == old(disk_.files)[FileIn(dst, x, ENC) := e.out]
    {
      ReNamed(TMP, x, CMP, ENC);
      var dstFile := dst + [SLASH] + ReNameBase(src, ENC);
      var srcFd := disk_.OpenRead(src);
      var dstFd := disk_.Create(dstFile);
      var encryptor := new Encryption.Encryptor(cipher, srcFd, dstFd, key);
      var outcome := encryptor.Handle();
      disk_.Close(dstFile, dstFd);
      err := if outcome.Failed? then -1 else 0;
    }

    method RunCompresser(src: Path, dstFile: Path) returns (err: int)
      requires src in disk_.files && |disk_.files[src]| < PAK_MAX
      modifies disk_
      ensures var z := CompressOut(old(disk_.files)[src]);
        err == z.err && disk_.files == old(disk_.files)[dstFile := z.out]
    {
      var srcFd := disk_.OpenRead(src);
      var dstFd := disk_.Create(dstFile);
      var compresser := new Compression.Compresser(srcFd, dstFd);
      var outcome := compresser.Handle();
      disk_.Close(dstFile, dstFd);
      err := if outcome.Failed? then -1 else 0;
    }

    /** The next handler runs even after a failure, on the file as it was left. */
    method CompressHandle(src: Path, dst: Path, x: seq<byte>, chain: nat) returns (err: int)
      requires src == FileIn(TMP, x, PAK) && SLASH !in x && 1 <= chain <= 2
      requires src in disk_.files && |disk_.files[src]| < PAK_MAX
      modifies disk_
      ensures var e := Encoded(cipher, key, old(disk_.files)[src], chain);
        err == e.err
        && disk_.files == (old(disk_.files) - LaterTemps(x, chain))[FileIn(dst, x, ExtOf(chain)) := e.out]
    {
      ghost var before, data := disk_.files, disk_.files[src];
      ReNamed(TMP, x, PAK, CMP);
      var dstFile := (if chain == 1 then dst else TMP) + [SLASH] + ReNameBase(src, CMP);
      err := RunCompresser(src, dstFile);
      if chain == 2 {
        CompressedFits(data);
        var next := EncryptHandle(dstFile, dst, x);
        err := Or(next, err);
        disk_.Remove(dstFile);
        ExtensionsDiffer(dst, TMP, x, ENC, CMP);
        ghost var z := CompressOut(data).out;
        TempGone(before, dstFile, FileIn(dst, x, ENC), z, EncryptOut(cipher, key, z).out);
      } else {
        assert before - {} == before;
      }
    }

    method RunPacker(root: Node, dstFile: Path)
      requires TreeOk(root)
      modifies disk_
      ensures disk_.files == old(disk_.files)[dstFile := PackOut(root)]
    {
      var dstFd := disk_.Create(dstFile);
      PackInto(root, dstFd);
      disk_.Close(dstFile, dstFd);
    }

    method PackInto(root: Node, dstFd: File)
      requires TreeOk(root) && dstFd.data == [] && dstFd.pos == 0
      modifies dstFd
      ensures dstFd.data == PackOut(root)
    {
      var packer := new Packer(dstFd);
      packer.Pack(root, root.name);
      FromNothing(packer.done, Flatten(root, root.name));
    }

    /** Pack into the first file of the chain, and hand it on. */
    method PackHandle(root: Node, src: Path, dst: Path, chain: nat) returns (err: int)
      requires TreeOk(root) && BaseName(src) == root.name && chain <= 2 && |PackOut(root)| < PAK_MAX
      modifies disk_
      ensures var e := Encoded(cipher, key, PackOut(root), chain);
        err == e.err
        && disk_.files == (old(disk_.files) - Temps(root.name, chain))[FileIn(dst, root.name, ExtOf(chain)) := e.out]
    {
      ghost var before := disk_.files;
      var dstFile := FileIn(if chain == 0 then dst else TMP, BaseName(src), PAK);
      RunPacker(root, dstFile);
      err := 0;
      if chain > 0 {
        err := CompressHandle(dstFile, dst, root.name, chain);
        disk_.Remove(dstFile);
        ExtensionsDiffer(dst, TMP, root.name, ExtOf(chain), PAK);
        TempsGone(before, dstFile, LaterTemps(root.name, chain), FileIn(dst, root.name, ExtOf(chain)),
                  PackOut(root), Encoded(cipher, key, PackOut(root), chain).out);
      } else {
        assert before - {} == before;
      }
    }

    /** HandlePack, HandleCompress and HandleEncrypt: run the chain, and name the file its last stage wrote. */
    method HandleChain(root: Node, src: Path, dst: Path, chain: nat)
      requires TreeOk(root) && BaseName(src) == root.name && chain <= 2 && |PackOut(root)| < PAK_MAX
      modifies this, disk_
      ensures err_code_ == Encoded(cipher, key, PackOut(root), chain).err
      ensures final_dst_ == FileIn(dst, root.name, ExtOf(chain)) && final_dst_ in disk_.files
      ensures disk_.files == ChainFiles(old(disk_.files), cipher, key, root, dst, chain)
    {
      err_code_ := PackHandle(root, src, dst, chain);
      final_dst_ := FileIn(dst, BaseName(src), ExtOf(chain));
    }

    /** The first letter of the method chooses the chain; the flag byte goes to the file written last. */
    method HandleEncode(m: char, root: Node, src: Path, dst: Path)
      requires TreeOk(root) && BaseName(src) == root.name && |PackOut(root)| < PAK_MAX
      modifies this, disk_
      ensures m !in {'p', 'c', 'e'} ==> err_code_ == -1 && disk_.files == old(disk_.files)
      ensures m in {'p', 'c', 'e'} ==>
        && err_code_ == Encoded(cipher, key, PackOut(root), ChainOf(m)).err
        && final_dst_ == FileIn(dst, root.name, ExtOf(ChainOf(m)))
        && disk_.files == EncodedFiles(old(disk_.files), cipher, key, root, dst, ChainOf(m))
      ensures Written(m, cipher, key, PackOut(root), dst + [SLASH] + root.name, err_code_, final_dst_, disk_.files)
    {
      ghost var before := disk_.files;
      RunMethod(m, root, src, dst);
      if m in {'p', 'c', 'e'} {
        MethodWritten(m, cipher, key, PackOut(root), dst, root.name, before, err_code_, final_dst_, disk_.files);
      }
    }

    method RunMethod(m: char, root: Node, src: Path, dst: Path)
      requires TreeOk(root) && BaseName(src) == root.name && |PackOut(root)| < PAK_MAX
      modifies this, disk_
      ensures m !in {'p', 'c', 'e'} ==> err_code_ == -1 && disk_.files == old(disk_.files)
      ensures m in {'p', 'c', 'e'} ==>
        && err_code_ == Encoded(cipher, key, PackOut(root), ChainOf(m)).err
        && final_dst_ == FileIn(dst, root.name, ExtOf(ChainOf(m)))
        && disk_.files == EncodedFiles(old(disk_.files), cipher, key, root, dst, ChainOf(m))
    {
      final_dst_ := [];
      var flag: byte := 0;
      match m {
        case 'p' =>
          flag := SetBit(flag, PACK_INDEX, true);
          HandleChain(root, src, dst, 0);
        case 'c' =>
          flag := SetBit(SetBit(flag, PACK_INDEX, true), CMP_INDEX, true);
          HandleChain(root, src, dst, 1);
        case 'e' =>
          flag := SetBit(SetBit(SetBit(flag, PACK_INDEX, true), CMP_INDEX, true), ENC_INDEX, true);
          HandleChain(root, src, dst, 2);
        case _ =>
          err_code_ := -1;
      }
      if final_dst_ != [] {
        FlagAppended(old(disk_.files), cipher, key, root, dst, ChainOf(m));
        disk_.Append(final_dst_, flag);
      }
    }

    method RunDecryptor(src: Path, dst: Path) returns (err: int)
      requires src in disk_.files
      modifies disk_
      ensures var d := DecryptIn(cipher, key, old(disk_.files)[src]);
        err == d.err && disk_.files == old(disk_.files)[dst := d.out]
    {
      var srcFd := disk_.OpenRead(src);
      var dstFd := disk_.Create(dst);
      var decryptor := new Decryption.Decryptor(cipher, srcFd, dstFd, key);
      var outcome := decryptor.Handle();
      disk_.Close(dst, dstFd);
      err := if outcome.Failed? then -1 else 0;
    }

    method RunDecompresser(src: Path, dst: Path, stale: byte) returns (err: int)
      requires src in disk_.files
      modifies disk_
      ensures var z := DecompressIn(old(disk_.files)[src], stale);
        err == z.err && disk_.files == old(disk_.files)[dst := z.out]
    {
      var srcFd := disk_.OpenRead(src);
      var dstFd := disk_.Create(dst);
      var decomp := new Decompression.Decompresser(srcFd, dstFd);
      var outcome := decomp.Handle(stale);
      disk_.Close(dst, dstFd);
      err := if outcome.Failed? then -1 else 0;
    }

    method RunUnPacker(src: Path) returns (err: int, escaped: bool)
      requires src in disk_.files
      modifies target_
      ensures var st := Extracted(disk_.files[src], StartIn(old(target_.fs)));
        target_.fs == st.fs && escaped == st.threw
      ensures !escaped ==> err == if SomeFails(Visits(disk_.files[src], StartIn(old(target_.fs)))) then -1 else 0
    {
      var srcFd := disk_.OpenRead(src);
      var unpacker := new UnPacker(srcFd, target_);
      err, escaped := unpacker.Handle();
    }

    /** Decrypt and decompress as the flag byte says, each stage into a temporary file of its own. */
    method UndoStages(src: Path, flag: byte, stale: byte) returns (err: int, tSrc: Path)
      requires src in disk_.files
      modifies disk_
      ensures var d := Decoded(cipher, key, old(disk_.files)[src], flag, stale);
        err == d.err && (err == 0 ==> tSrc == LastTemp(src, flag))
        && Undone(old(disk_.files), disk_.files, src, flag, d)
    {
      ghost var before := disk_.files;
      TempsDiffer(src, flag);
      err, tSrc := 0, src;
      if GetBit(flag, ENC_INDEX) != 0 {
        var tDst := FileIn(TMP, BaseName(tSrc), DEC);
        err := RunDecryptor(tSrc, tDst);
        tSrc := tDst;
      }
      ghost var d := Staged(err, disk_.files[tSrc]);
      if err == 0 && GetBit(flag, CMP_INDEX) != 0 {
        var tDst := FileIn(TMP, BaseName(tSrc), DCMP);
        err := RunDecompresser(tSrc, tDst, stale);
        if tSrc != src {
          disk_.Remove(tSrc);
        }
        AfterDecompressing(before, src, flag, d.out, Staged(err, disk_.files[tDst]));
        tSrc := tDst;
      } else {
        WithoutDecompressing(before, src, flag, d);
      }
    }

    /** Take the flag byte off the archive; an empty archive has none, and reads as 0. */
    method TakeFlag(src: Path) returns (flag: byte)
      requires src in disk_.files
      modifies disk_
      ensures flag == FlagOf(old(disk_.files)[src])
      ensures disk_.files == old(disk_.files)[src := ArchiveOf(old(disk_.files)[src])]
    {
      flag := 0;
      var fdSrc := disk_.OpenRead(src);
      var size := |fdSrc.data|;
      if size >= 1 {
        fdSrc.Seek(size - 1);
      }
      var buf := fdSrc.Read(1);
      if |buf| == 1 {
        flag := buf[0];
      }
      if size >= 1 {
        disk_.Truncate(src, size - 1);
      } else {
        assert disk_.files[src := []] == disk_.files;
      }
    }

    /** Take the flag byte off, undo the stages, unpack, put the flag byte back; an exception that escapes
        from the unpacker skips the last step. */
    method HandleDecode(src: Path, stale: byte) returns (escaped: bool)
      requires src in disk_.files && err_code_ == 0
      modifies this, disk_, target_
      ensures Decodes(cipher, key, stale, src, old(disk_.files), old(target_.fs),
                      disk_.files, target_.fs, err_code_, escaped)
    {
      ghost var before := disk_.files;
      var flag := TakeFlag(src);
      ghost var cut := disk_.files;
      var tSrc;
      err_code_, tSrc := UndoStages(src, flag, stale);
      escaped := false;
      if err_code_ == 0 {
        err_code_, escaped := RunUnPacker(tSrc);
        if escaped {
          LeftCut(before, cut, disk_.files, src, flag);
          return;
        }
        if tSrc != src {
          disk_.Remove(tSrc);
        }
        LeftClean(before, cut, src, flag);
      } else {
        LeftCut(before, cut, disk_.files, src, flag);
      }
      disk_.Append(src, flag);
    }

    /** A backup and its restoration on one disk: encode by any method, then decode the file that was written. */
    method BackUpAndRestore(m: char, root: Node, src: Path, dst: Path, stale: byte) returns (escaped: bool)
      requires m in {'p', 'c', 'e'} && BaseName(src) == root.name && Encodable(key, root, ChainOf(m))
      requires Cbc.Invertible(cipher) && target_.fs == FS([], [], [])
      modifies this, disk_, target_
      ensures var chain := ChainOf(m);
        var file := FileIn(dst, root.name, ExtOf(chain));
        Restores(root, file, DecodeTemps(file, Flag(chain)),
                 EncodedFiles(old(disk_.files), cipher, key, root, dst, chain), disk_.files,
                 target_.fs, err_code_, escaped)
    {
      ghost var files, chain := disk_.files, ChainOf(m);
      HandleEncode(m, root, src, dst);
      FileWritten(files, cipher, key, root, dst, chain);
      escaped := HandleDecode(final_dst_, stale);
      BackAgain(files, cipher, key, root, chain, stale, dst, disk_.files, target_.fs, err_code_, escaped);
    }

    /** Copying is packing to a temporary file and unpacking that. */
    method HandleCopy(root: Node, src: Path) returns (escaped: bool)
      requires TreeOk(root) && BaseName(src) == root.name && |PackOut(root)| < PAK_MAX
      modifies this, disk_, target_
      ensures var st := Extracted(PackOut(root), StartIn(old(target_.fs)));
        && target_.fs == st.fs && escaped == st.threw
        && (!escaped ==> err_code_ == if SomeFails(Visits(PackOut(root), StartIn(old(target_.fs)))) then -1 else 0)
        && disk_.files == if escaped then old(disk_.files)[FileIn(TMP, root.name, PAK) := PackOut(root)]
                          else old(disk_.files) - {FileIn(TMP, root.name, PAK)}
    {
      err_code_ := PackHandle(root, src, TMP, 0);
      assert old(disk_.files) - {} == old(disk_.files);
      var pkDst := FileIn(TMP, BaseName(src), PAK);
      var err;
      err, escaped := RunUnPacker(pkDst);
      if !escaped {
        err_code_ := Or(err, err_code_);
        disk_.Remove(pkDst);
      }
    }
  }

  function FlagOf(file: seq<byte>): byte {
    if file == [] then 0 else file[|file| - 1]
  }

  function ArchiveOf(file: seq<byte>): seq<byte> {
    if file == [] then [] else file[..|file| - 1]
  }

  /** The disk after decoding src: the source with its flag byte back, unless an exception escaped; no other
      file touched but the temporary ones, and none of those left after success. */
  ghost predicate DecodedFiles(before: Files, files: Files, src: Path, ok: bool, escaped: bool)
    requires src in before
  {
    var file := before[src];
    var temps := DecodeTemps(src, FlagOf(file));
    && src in files && files[src] == ArchiveOf(file) + (if escaped then [] else [FlagOf(file)])
    && files - temps - {src} == before - temps - {src}
    && (ok && !escaped ==> files.Keys == before.Keys - temps)
  }

  /** Everything HandleDecode does: to the target directory, to the disk, and its return code. */
  ghost predicate Decodes(c: Cbc.Cipher, key: seq<byte>, stale: byte, src: Path, before: Files, target: FS,
                          after: Files, target': FS, err: int, escaped: bool)
    requires src in before
  {
    var file := before[src];
    var d := Decoded(c, key, ArchiveOf(file), FlagOf(file), stale);
    var st := Extracted(d.out, StartIn(target));
    && target' == (if d.err == 0 then st.fs else target)
    && escaped == (d.err == 0 && st.threw)
    && (!escaped ==> err == if d.err == 0 && !SomeFails(Visits(d.out, StartIn(target))) then 0 else -1)
    && DecodedFiles(before, after, src, d.err == 0, escaped)
  }

  /** Some record of the archive, as the unpacker comes to read it, is a file to be copied that is cut short. */
  ghost predicate SomeFileCutShort(archive: seq<byte>, target: FS) {
    SomeEscapes(archive, Visits(archive, StartIn(target)))
  }

  lemma FlagPutBack(file: seq<byte>)
    ensures ArchiveOf(file) + [FlagOf(file)] == file <==> file != []
    ensures file != [] ==> ArchiveOf(file) != file
  {
  }

  lemma EmptyDecodes(c: Cbc.Cipher, key: seq<byte>, stale: byte, target: FS)
    ensures Decoded(c, key, [], 0, stale) == Staged(0, []) && !SomeFileCutShort([], target)
  {
    NoBits(CMP_INDEX);
    NoBits(ENC_INDEX);
  }

  lemma ThrowsIffCutShort(archive: seq<byte>, target: FS)
    ensures Extracted(archive, StartIn(target)).threw <==> SomeFileCutShort(archive, target)
  {
    EscapesIff(archive, StartIn(target));
  }

  lemma RestoredIff(file: seq<byte>, now: seq<byte>, escaped: bool)
    requires now == ArchiveOf(file) + (if escaped then [] else [FlagOf(file)]) && (file == [] ==> !escaped)
    ensures now == file <==> file != [] && !escaped
  {
    FlagPutBack(file);
    if escaped { assert now == ArchiveOf(file); }
  }

  /** On any disk and any target: the archive is byte for byte as before exactly when it was not empty and no
      file in what its stages decode to is cut short; an empty one gains a zero byte, the others lose their flag. */
  lemma SourceRestoredIff(c: Cbc.Cipher, key: seq<byte>, stale: byte, src: Path, before: Files, target: FS,
                          after: Files, target': FS, err: int, escaped: bool)
    requires src in before && Decodes(c, key, stale, src, before, target, after, target', err, escaped)
    ensures var file := before[src];
      var d := Decoded(c, key, ArchiveOf(file), FlagOf(file), stale);
      && (escaped <==> d.err == 0 && SomeFileCutShort(d.out, target))
      && (src in after && (after[src] == file <==> file != [] && !escaped))
      && after[src] == ArchiveOf(file) + if escaped then [] else [FlagOf(file)]
  {
    var file := before[src];
    ThrowsIffCutShort(Decoded(c, key, ArchiveOf(file), FlagOf(file), stale).out, target);
    if file == [] { EmptyDecodes(c, key, stale, target); }
    RestoredIff(file, after[src], escaped);
  }

  /** Whether or not the archive was encrypted: the decompressed file replaces the decrypted one. */
  lemma AfterDecompressing(before: Files, src: Path, flag: byte, plain: seq<byte>, z: Staged)
    requires src !in DecodeTemps(src, flag) && DecryptTemp(src) != DecompressTemp(src, flag)
    requires GetBit(flag, CMP_INDEX) != 0
    ensures var t, t' := DecryptTemp(src), DecompressTemp(src, flag);
      Undone(before,
             if GetBit(flag, ENC_INDEX) != 0 then before[t := plain][t' := z.out] - {t} else before[t' := z.out],
             src, flag, z)
  {
  }

  lemma WithoutDecompressing(before: Files, src: Path, flag: byte, d: Staged)
    requires src !in DecodeTemps(src, flag) && src in before && (d.err != 0 || GetBit(flag, CMP_INDEX) == 0)
    requires GetBit(flag, ENC_INDEX) == 0 ==> d == Staged(0, before[src])
    ensures Undone(before, if GetBit(flag, ENC_INDEX) != 0 then before[DecryptTemp(src) := d.out] else before,
                   src, flag, d)
  {
  }

  /** Files other than the temporary ones are untouched; after success only the last temporary file is left. */
  ghost predicate Undone(before: Files, files: Files, src: Path, flag: byte, d: Staged) {
    var last := LastTemp(src, flag);
    && files - DecodeTemps(src, flag) == before - DecodeTemps(src, flag)
    && (d.err == 0 ==> last in files && files[last] == d.out
                       && (last == src ==> files == before)
                       && (last != src ==> files - {last} == before - DecodeTemps(src, flag)))
  }

  /** The temporary files of a decoding: decrypted, decompressed. */
  function DecryptTemp(src: Path): Path {
    FileIn(TMP, BaseName(src), DEC)
  }

  function AfterDecrypt(src: Path, flag: byte): Path {
    if GetBit(flag, ENC_INDEX) != 0 then DecryptTemp(src) else src
  }

  function DecompressTemp(src: Path, flag: byte): Path {
    FileIn(TMP, BaseName(AfterDecrypt(src, flag)), DCMP)
  }

  /** The archive the unpacker reads: the source itself when nothing had to be undone. */
  function LastTemp(src: Path, flag: byte): Path {
    if GetBit(flag, CMP_INDEX) != 0 then DecompressTemp(src, flag) else AfterDecrypt(src, flag)
  }

  function DecodeTemps(src: Path, flag: byte): set<Path> {
    (if GetBit(flag, ENC_INDEX) != 0 then {DecryptTemp(src)} else {})
    + (if GetBit(flag, CMP_INDEX) != 0 then {DecompressTemp(src, flag)} else {})
  }

  /** The temporary files by their names: /tmp/x.dec if there is something to decrypt, and /tmp/y.dcmp if there is
      something to decompress, x and y being the base names of what each stage reads. */
  lemma TempNames(src: Path, flag: byte)
    ensures var dec := [47, 116, 109, 112, 47] + BaseName(src) + [46, 100, 101, 99];
      var read := if GetBit(flag, 2) != 0 then dec else src;
      var dcmp := [47, 116, 109, 112, 47] + BaseName(read) + [46, 100, 99, 109, 112];
      forall p ::
        p in DecodeTemps(src, flag) <==> (GetBit(flag, 2) != 0 && p == dec) || (GetBit(flag, 1) != 0 && p == dcmp)
  {
    var dec := [47, 116, 109, 112, 47] + BaseName(src) + [46, 100, 101, 99];
    assert DecryptTemp(src) == dec;
    var x := BaseName(AfterDecrypt(src, flag));
    assert DecompressTemp(src, flag) == [47, 116, 109, 112, 47] + x + [46, 100, 99, 109, 112];
  }

  lemma TempsDiffer(src: Path, flag: byte)
    ensures src !in DecodeTemps(src, flag) && DecryptTemp(src) != DecompressTemp(src, flag)
  {
    LongerName(TMP, src, DEC);
    LongerName(TMP, AfterDecrypt(src, flag), DCMP);
    var x := BaseName(src);
    BaseNameHasNoSlash(src);
    BaseNameOf(TMP, x + [DOT] + DEC);
    BaseNameOf(TMP, BaseName(AfterDecrypt(src, flag)) + [DOT] + DCMP);
  }

  lemma LeftCut(before: Files, cut: Files, files: Files, src: Path, flag: byte)
    requires src in before && flag == FlagOf(before[src]) && cut == before[src := ArchiveOf(before[src])]
    requires files - DecodeTemps(src, flag) == cut - DecodeTemps(src, flag)
    ensures src in files && files[src] == ArchiveOf(before[src])
    ensures DecodedFiles(before, files, src, false, true)
    ensures DecodedFiles(before, files[src := files[src] + [flag]], src, false, false)
  {
    TempsDiffer(src, flag);
    var temps := DecodeTemps(src, flag);
    assert src in (files - temps) && (files - temps)[src] == (cut - temps)[src];
    assert files - temps - {src} == (files - temps) - {src};
    assert cut - temps - {src} == before - temps - {src};
    assert files[src := files[src] + [flag]] - temps - {src} == files - temps - {src};
  }

  lemma LeftClean(before: Files, cut: Files, src: Path, flag: byte)
    requires src in before && flag == FlagOf(before[src]) && cut == before[src := ArchiveOf(before[src])]
    ensures var files := cut - DecodeTemps(src, flag);
      src in files && DecodedFiles(before, files[src := files[src] + [flag]], src, true, false)
  {
    TempsDiffer(src, flag);
    var files := cut - DecodeTemps(src, flag);
    LeftCut(before, cut, files, src, flag);
  }

  lemma FromNothing(all: seq<Entry>, es: seq<Entry>)
    requires all == [] + es
    ensures all == es
  {
  }

  lemma TempGone(files: Files, tmp: Path, final: Path, a: seq<byte>, b: seq<byte>)
    requires tmp != final
    ensures files[tmp := a][final := b] - {tmp} == (files - {tmp})[final := b]
  {
  }

  lemma TempsGone(files: Files, tmp: Path, later: set<Path>, final: Path, a: seq<byte>, b: seq<byte>)
    requires tmp != final
    ensures (files[tmp := a] - later)[final := b] - {tmp} == (files - ({tmp} + later))[final := b]
  {
  }

  lemma FlagTaken(out: seq<byte>, flag: byte)
    ensures ArchiveOf(out + [flag]) == out && FlagOf(out + [flag]) == flag
  {
  }

  ghost predicate Encodable(key: seq<byte>, root: Node, chain: nat) {
    && SourceTrees.RealTree(root) && chain <= 2 && |PackOut(root)| < PAK_MAX
    && (chain == 0 || (!root.Special? && (chain == 2 ==> key != [])))
  }

  /** The finished file of a chain. */
  ghost function Finished(c: Cbc.Cipher, key: seq<byte>, root: Node, chain: nat): seq<byte>
    requires Encodable(key, root, chain)
  {
    Encoded(c, key, PackOut(root), chain).out + [Flag(chain)]
  }

  lemma FinishedDecodes(c: Cbc.Cipher, key: seq<byte>, root: Node, chain: nat, stale: byte)
    requires Cbc.Invertible(c) && Encodable(key, root, chain)
    ensures Encoded(c, key, PackOut(root), chain).err == 0
    ensures var file := Finished(c, key, root, chain);
      file != [] && Decoded(c, key, ArchiveOf(file), FlagOf(file), stale) == Staged(0, PackOut(root))
  {
    FlagTaken(Encoded(c, key, PackOut(root), chain).out, Flag(chain));
    EncodeSucceeds(c, key, root, chain);
    DecodeEncoded(c, key, PackOut(root), chain, stale);
  }

  /** The disk after a decoding that succeeds and restores its source. */
  lemma DiskRestored(before: Files, after: Files, src: Path)
    requires src in before && DecodedFiles(before, after, src, true, false) && before[src] != []
    ensures after == before - DecodeTemps(src, FlagOf(before[src]))
  {
    var temps := DecodeTemps(src, FlagOf(before[src]));
    TempsDiffer(src, FlagOf(before[src]));
    FlagPutBack(before[src]);
    forall p | p in after && p != src ensures p in before - temps && after[p] == (before - temps)[p] {
      assert p in (after - temps - {src}) && (after - temps - {src})[p] == (before - temps - {src})[p];
    }
  }

  /** What a decoding makes of a file that decodes to the archive of `root`, with an empty target directory: the
      tree comes back exactly when link counts and inode numbers tell its files apart; then there is no error and
      the disk is as before, but for `temps`.  Otherwise the file itself still ends as it began exactly when no
      file in the archive is cut short. */
  ghost predicate Restores(root: Node, src: Path, temps: set<Path>, before: Files,
                           after: Files, target: FS, err: int, escaped: bool)
  {
    var es := Flatten(root, root.name);
    var apart := CountsTellFilesApart(es) && InodesTellFilesApart(es);
    && (Recreation.Recreated(target, root) <==> apart)
    && (apart ==> !escaped && err == 0 && after == before - temps)
    && (escaped <==> SomeFileCutShort(PackOut(root), FS([], [], [])))
    && src in before && src in after && (after[src] == before[src] <==> !escaped)
  }

  lemma PackOutUnpacks(root: Node)
    requires SourceTrees.RealTree(root)
    ensures var es, st := Flatten(root, root.name), Extracted(PackOut(root), StartIn(FS([], [], [])));
      var apart := CountsTellFilesApart(es) && InodesTellFilesApart(es);
      && (Recreation.Recreated(st.fs, root) <==> apart)
      && (apart ==> !st.threw && !SomeFails(Visits(PackOut(root), StartIn(FS([], [], [])))))
  {
    Recreation.TreeRoundTrip(root);
    NoErrorIff(PackOut(root), FS([], [], []));
  }

  /** What HandleDecode does to the target when its stages decode to `pak`. */
  lemma DecodesTo(c: Cbc.Cipher, key: seq<byte>, stale: byte, src: Path, before: Files, target: FS,
                  after: Files, target': FS, err: int, escaped: bool, pak: seq<byte>)
    requires src in before && Decodes(c, key, stale, src, before, target, after, target', err, escaped)
    requires Decoded(c, key, ArchiveOf(before[src]), FlagOf(before[src]), stale) == Staged(0, pak)
    ensures target' == Extracted(pak, StartIn(target)).fs && escaped == Extracted(pak, StartIn(target)).threw
    ensures !escaped ==> err == if SomeFails(Visits(pak, StartIn(target))) then -1 else 0
    ensures DecodedFiles(before, after, src, true, escaped)
  {
  }

  lemma TreeDecoded(c: Cbc.Cipher, key: seq<byte>, root: Node, stale: byte, src: Path,
                    before: Files, after: Files, target: FS, err: int, escaped: bool)
    requires SourceTrees.RealTree(root) && src in before && before[src] != []
    requires Decoded(c, key, ArchiveOf(before[src]), FlagOf(before[src]), stale) == Staged(0, PackOut(root))
    requires Decodes(c, key, stale, src, before, FS([], [], []), after, target, err, escaped)
    ensures Restores(root, src, DecodeTemps(src, FlagOf(before[src])), before, after, target, err, escaped)
  {
    PackOutUnpacks(root);
    DecodesTo(c, key, stale, src, before, FS([], [], []), after, target, err, escaped, PackOut(root));
    SourceRestoredIff(c, key, stale, src, before, FS([], [], []), after, target, err, escaped);
    if !escaped { DiskRestored(before, after, src); }
  }

  /** HandleDecode on a file HandleEncode has finished, whichever chain was asked for, whatever the tree. */
  lemma EndToEnd(c: Cbc.Cipher, key: seq<byte>, root: Node, chain: nat, stale: byte, src: Path,
                 before: Files, after: Files, target: FS, err: int, escaped: bool)
    requires Cbc.Invertible(c) && Encodable(key, root, chain)
    requires src in before && before[src] == Finished(c, key, root, chain)
    requires Decodes(c, key, stale, src, before, FS([], [], []), after, target, err, escaped)
    ensures Restores(root, src, DecodeTemps(src, Flag(chain)), before, after, target, err, escaped)
  {
    FinishedDecodes(c, key, root, chain, stale);
    FlagTaken(Encoded(c, key, PackOut(root), chain).out, Flag(chain));
    TreeDecoded(c, key, root, stale, src, before, after, target, err, escaped);
  }

  lemma FileWritten(files: Files, c: Cbc.Cipher, key: seq<byte>, root: Node, dst: Path, chain: nat)
    requires Encodable(key, root, chain)
    ensures Encoded(c, key, PackOut(root), chain).err == 0
    ensures var file, disk := FileIn(dst, root.name, ExtOf(chain)), EncodedFiles(files, c, key, root, dst, chain);
      file in disk && disk[file] == Finished(c, key, root, chain)
  {
    EncodeSucceeds(c, key, root, chain);
  }

  lemma BackAgain(files: Files, c: Cbc.Cipher, key: seq<byte>, root: Node, chain: nat, stale: byte,
                  dst: Path, after: Files, target: FS, err: int, escaped: bool)
    requires Cbc.Invertible(c) && Encodable(key, root, chain)
    requires var file, disk := FileIn(dst, root.name, ExtOf(chain)), EncodedFiles(files, c, key, root, dst, chain);
      file in disk && Decodes(c, key, stale, file, disk, FS([], [], []), after, target, err, escaped)
    ensures var file, disk := FileIn(dst, root.name, ExtOf(chain)), EncodedFiles(files, c, key, root, dst, chain);
      Restores(root, file, DecodeTemps(file, Flag(chain)), disk, after, target, err, escaped)
  {
    var file, disk := FileIn(dst, root.name, ExtOf(chain)), EncodedFiles(files, c, key, root, dst, chain);
    FileWritten(files, c, key, root, dst, chain);
    EndToEnd(c, key, root, chain, stale, file, disk, after, target, err, escaped);
  }

  /** A tree of two small files for which an exception escapes: the archive loses its flag byte. */
  lemma ConfusedArchiveCut(c: Cbc.Cipher, key: seq<byte>, chain: nat, stale: byte, src: Path,
                           before: Files, after: Files, target': FS, err: int, escaped: bool)
    requires var root := Recreation.ConfusedTree();
      && Cbc.Invertible(c) && Encodable(key, root, chain)
      && src in before && before[src] == Finished(c, key, root, chain)
      && Decodes(c, key, stale, src, before, FS([], [], []), after, target', err, escaped)
    ensures escaped && src in after && after[src] + [Flag(chain)] == before[src]
  {
    var root := Recreation.ConfusedTree();
    Recreation.ConfusedTreeEscapes();
    FinishedDecodes(c, key, root, chain, stale);
    FlagTaken(Encoded(c, key, PackOut(root), chain).out, Flag(chain));
    SourceRestoredIff(c, key, stale, src, before, FS([], [], []), after, target', err, escaped);
    assert ArchiveOf(before[src]) + [] == ArchiveOf(before[src]);
  }

  /** That tree can be encoded. */
  lemma ConfusedTreeEncodable(key: seq<byte>)
    requires key != []
    ensures forall chain: nat :: chain <= 2 ==> Encodable(key, Recreation.ConfusedTree(), chain)
  {
    var root := Recreation.ConfusedTree();
    Recreation.ConfusedTreeEscapes();
    Recreation.ConfusedTreeSize();
  }
}
