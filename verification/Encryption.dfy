// src/encrypt.cpp: digest, length, then the zero-padded data in CBC chunks of 4096 bytes.
module Encryption {
  import opened Bytes
  import opened Posix
  import opened Handlers
  import Cbc

  const OFF_MAX: nat := 0x8000_0000_0000_0000

  /** The first 16 bytes of the password, filled up with zeros. */
  function KeyOf(pwd: seq<byte>): (k: Cbc.Block)
  {
    if |pwd| >= 16 then pwd[..16] else pwd + Zeros(16 - |pwd|)
  }

  /** Byte i of the key is that of the password, or zero behind its end; so exactly the first 16 bytes matter. */
  predicate SameKey(a: seq<byte>, b: seq<byte>) {
    forall i :: 0 <= i < 16 ==> (if i < |a| then a[i] else 0) == (if i < |b| then b[i] else 0)
  }

  lemma KeyBytes(pwd: seq<byte>)
    ensures forall i :: 0 <= i < 16 ==> KeyOf(pwd)[i] == if i < |pwd| then pwd[i] else 0
  {
  }

  lemma KeysAgreeIff(a: seq<byte>, b: seq<byte>)
    ensures KeyOf(a) == KeyOf(b) <==> SameKey(a, b)
  {
    KeyBytes(a);
    KeyBytes(b);
    if SameKey(a, b) {
      forall i | 0 <= i < 16 ensures KeyOf(a)[i] == KeyOf(b)[i] {}
    } else {
      var i :| 0 <= i < 16 && (if i < |a| then a[i] else 0) != (if i < |b| then b[i] else 0);
      assert KeyOf(a)[i] != KeyOf(b)[i];
    }
  }

  function ToWhole(n: nat): nat {
    if n % 16 == 0 then 0 else 16 - n % 16
  }

  function Pad16(s: seq<byte>): (r: seq<byte>)
    ensures |r| == |s| + ToWhole(|s|) && |r| % 16 == 0
  {
    s + Zeros(ToWhole(|s|))
  }

  function CipherText(c: Cbc.Cipher, pwd: seq<byte>, data: seq<byte>): (r: seq<byte>)
    ensures |r| == |data| + ToWhole(|data|) && |r| % 16 == 0
  {
    Cbc.Encrypt(c, KeyOf(pwd), Zeros(16), Pad16(data))
  }

  function EncryptedFile(c: Cbc.Cipher, pwd: seq<byte>, data: seq<byte>): seq<byte>
  {
    c.digest(pwd) + LE(|data|, 8) + CipherText(c, pwd, data)
  }

  /** The iv after the chunks of `data`. */
  function IvAfter(c: Cbc.Cipher, pwd: seq<byte>, data: seq<byte>): (iv: Cbc.Block)
  {
    Cbc.Carry(Zeros(16), CipherText(c, pwd, data))
  }

  /** Only the last chunk can need padding, so the chunks make up the whole message. */
  lemma NextChunk(c: Cbc.Cipher, pwd: seq<byte>, a: seq<byte>, b: seq<byte>)
    requires |a| % 16 == 0
    ensures var s := Cbc.Encrypt(c, KeyOf(pwd), IvAfter(c, pwd, a), Pad16(b));
      CipherText(c, pwd, a + b) == CipherText(c, pwd, a) + s
      && IvAfter(c, pwd, a + b) == Cbc.Carry(IvAfter(c, pwd, a), s)
  {
    assert Pad16(a) == a;
    PadTail(a, b);
    Cbc.EncryptChunks(c, KeyOf(pwd), Zeros(16), a, Pad16(b));
    Cbc.CarryPast(Zeros(16), CipherText(c, pwd, a), Cbc.Encrypt(c, KeyOf(pwd), IvAfter(c, pwd, a), Pad16(b)));
  }

  /** The bytes `sent` so far are on disk behind `base`, and iv is what they leave. */
  ghost predicate Sent(c: Cbc.Cipher, pwd: seq<byte>, base: seq<byte>, sent: seq<byte>, disk: seq<byte>, iv: Cbc.Block)
  {
    iv == IvAfter(c, pwd, sent) && disk == base + CipherText(c, pwd, sent)
  }

  lemma SendNext(c: Cbc.Cipher, pwd: seq<byte>, base: seq<byte>, sent: seq<byte>, disk: seq<byte>, iv: Cbc.Block,
                 read: seq<byte>, write: seq<byte>)
    requires Sent(c, pwd, base, sent, disk, iv) && |sent| % 16 == 0
    requires write == Cbc.Encrypt(c, KeyOf(pwd), iv, Pad16(read))
    ensures Sent(c, pwd, base, sent + read, disk + write, Cbc.Carry(iv, write))
  {
    NextChunk(c, pwd, sent, read);
    Cbc.Regroup(base, CipherText(c, pwd, sent), write);
  }

  lemma PadTail(a: seq<byte>, b: seq<byte>)
    requires |a| % 16 == 0
    ensures Pad16(a + b) == a + Pad16(b)
  {
    assert (|a| + |b|) % 16 == |b| % 16;
    assert a + b + Zeros(ToWhole(|b|)) == a + (b + Zeros(ToWhole(|b|)));
  }

  lemma StaysAligned(at: nat, next: nat, size: nat)
    requires at % 16 == 0 && next == Min(at + 4096, size)
    ensures next % 16 == 0 || next == size
  {
  }

  /** The file, byte by byte: digest and length, then block i of the zero-filled data, xored with the cipher block
      before it (with zeros, for the first), under the zero-filled password. */
  lemma FileBlocks(c: Cbc.Cipher, pwd: seq<byte>, data: seq<byte>, i: nat, key: Cbc.Block, block: Cbc.Block)
    requires 16 * i < |data| < OFF_MAX
    requires forall j :: 0 <= j < 16 ==> key[j] == if j < |pwd| then pwd[j] else 0
    requires forall j :: 0 <= j < 16 ==> block[j] == if 16 * i + j < |data| then data[16 * i + j] else 0
    ensures var file, at := EncryptedFile(c, pwd, data), 24 + 16 * i;
      && at + 16 <= |file| && |file| < 24 + |data| + 16 && |file| % 16 == 8
      && file[..16] == c.digest(pwd) && FromLE(file[16..24]) == |data|
      && file[at..at + 16] == c.enc(key, if i == 0 then block else Xor(block, file[at - 16..at]))
  {
    FileStart(c, pwd, data);
    CipherBlock(c, pwd, data, i, key, block);
    var head, cipher := c.digest(pwd) + LE(|data|, 8), CipherText(c, pwd, data);
    FileBehindHeader(head, cipher, 16 * i);
    if i > 0 { FileBehindHeader(head, cipher, 16 * i - 16); }
  }

  lemma FileStart(c: Cbc.Cipher, pwd: seq<byte>, data: seq<byte>)
    requires |data| < OFF_MAX
    ensures var file := EncryptedFile(c, pwd, data);
      && |file| == 24 + |data| + ToWhole(|data|) && file[..16] == c.digest(pwd) && FromLE(file[16..24]) == |data|
  {
    Pow256Values();
    FromLEofLE(|data|, 8);
    assert EncryptedFile(c, pwd, data)[16..24] == LE(|data|, 8);
  }

  lemma CipherBlock(c: Cbc.Cipher, pwd: seq<byte>, data: seq<byte>, i: nat, key: Cbc.Block, block: Cbc.Block)
    requires 16 * i < |data|
    requires forall j :: 0 <= j < 16 ==> key[j] == if j < |pwd| then pwd[j] else 0
    requires forall j :: 0 <= j < 16 ==> block[j] == if 16 * i + j < |data| then data[16 * i + j] else 0
    ensures var s, at := CipherText(c, pwd, data), 16 * i;
      at + 16 <= |s| && s[at..at + 16] == c.enc(key, if i == 0 then block else Xor(block, s[at - 16..at]))
  {
    KeyBytes(pwd);
    assert key == KeyOf(pwd);
    PadBlock(data, i, block);
    Cbc.BlockAt(c, key, Zeros(16), Pad16(data), i);
    XorZeros(block);
  }

  lemma PadBlock(data: seq<byte>, i: nat, block: Cbc.Block)
    requires 16 * i < |data|
    requires forall j :: 0 <= j < 16 ==> block[j] == if 16 * i + j < |data| then data[16 * i + j] else 0
    ensures 16 * i + 16 <= |Pad16(data)| && Pad16(data)[16 * i..16 * i + 16] == block
  {
    var plain := Pad16(data);
    assert 16 * i + 16 <= |plain|;
    forall j | 0 <= j < 16 ensures plain[16 * i..16 * i + 16][j] == block[j] {}
  }

  lemma FileBehindHeader(head: seq<byte>, tail: seq<byte>, i: nat)
    requires |head| == 24 && i + 16 <= |tail|
    ensures (head + tail)[24 + i..24 + i + 16] == tail[i..i + 16]
  {
  }

  /** pwd_padding: the loop that copies at most 16 bytes over zeros. */
  method MakeKey(pwd: seq<byte>) returns (key: Cbc.Block)
    ensures key == KeyOf(pwd)
    ensures forall i :: 0 <= i < 16 ==> key[i] == if i < |pwd| then pwd[i] else 0
  {
    KeyBytes(pwd);
    key := Zeros(16);
    var loopTimes := Min(16, |pwd|);
    for i := 0 to loopTimes
      invariant key == pwd[..i] + Zeros(16 - i)
    {
      key := key[i := pwd[i]];
    }
  }

  class Encryptor {
    const cipher: Cbc.Cipher
    const src_fd_: File
    const dst_fd_: File
    const src_file_size_: nat
    var pwd_: seq<byte>

    /** Init and SetPassword: both files open, the target empty. */
    constructor (c: Cbc.Cipher, src: File, dst: File, pwd: seq<byte>)
      ensures cipher == c && src_fd_ == src && dst_fd_ == dst && src_file_size_ == |src.data| && pwd_ == pwd
    {
      cipher, src_fd_, dst_fd_, src_file_size_, pwd_ := c, src, dst, |src.data|, pwd;
    }

    /** The last chunk is filled up to whole cipher blocks. */
    method PadChunk(read: seq<byte>) returns (buf: seq<byte>)
      ensures buf == Pad16(read)
    {
      buf := read;
      while |buf| % 16 != 0
        invariant |read| <= |buf| <= |read| + ToWhole(|read|) && buf == read + Zeros(|buf| - |read|)
        decreases |read| + ToWhole(|read|) - |buf|
      {
        buf := buf + [0];
      }
    }

    method GenerateDigest()
      requires dst_fd_.pos == |dst_fd_.data|
      modifies dst_fd_
      ensures dst_fd_.data == old(dst_fd_.data) + cipher.digest(pwd_) && dst_fd_.pos == |dst_fd_.data|
    {
      SpliceAtEnd(dst_fd_.data, cipher.digest(pwd_));
      dst_fd_.Write(cipher.digest(pwd_));
    }

    /** Read, pad and encrypt chunk after chunk, the iv carried along. */
    method Encrypt()
      requires src_fd_ != dst_fd_ && src_fd_.pos == 0 && dst_fd_.pos == |dst_fd_.data|
      requires src_file_size_ == |src_fd_.data| < OFF_MAX
      modifies src_fd_, dst_fd_
      ensures src_fd_.data == old(src_fd_.data)
      ensures dst_fd_.data == old(dst_fd_.data) + LE(|src_fd_.data|, 8) + CipherText(cipher, pwd_, src_fd_.data)
    {
      SpliceAtEnd(dst_fd_.data, LE(src_file_size_, 8));
      dst_fd_.Write(LE(src_file_size_, 8));
      var key := MakeKey(pwd_);
      var iv: Cbc.Block := Zeros(16);
      ghost var data, base := src_fd_.data, dst_fd_.data;
      ghost var sent := [];
      while true
        invariant src_fd_.data == data && src_fd_.pos <= |data| && sent == data[..src_fd_.pos]
        invariant src_fd_.pos % 16 == 0 || src_fd_.pos == |data|
        invariant Sent(cipher, pwd_, base, sent, dst_fd_.data, iv) && dst_fd_.pos == |dst_fd_.data|
        decreases |data| - src_fd_.pos
      {
        ghost var at := src_fd_.pos;
        var read := src_fd_.ReadBlock(MAX_BUF_SIZE);
        if read == [] {
          break;
        }
        StaysAligned(at, src_fd_.pos, |data|);
        PrefixGrows(data, at, src_fd_.pos);
        var buf := PadChunk(read);
        var write := Cbc.Encrypt(cipher, key, iv, buf);
        SendNext(cipher, pwd_, base, sent, dst_fd_.data, iv, read, write);
        iv := Cbc.Carry(iv, write);
        SpliceAtEnd(dst_fd_.data, write);
        dst_fd_.Write(write);
        sent := sent + read;
      }
      WholePrefix(data);
    }

    /** An empty password is refused, after the target has been emptied. */
    method Handle() returns (outcome: Outcome)
      requires src_fd_ != dst_fd_ && src_fd_.pos == 0 && dst_fd_.data == [] && dst_fd_.pos == 0
      requires src_file_size_ == |src_fd_.data| < OFF_MAX
      modifies this, src_fd_, dst_fd_
      ensures src_fd_.data == old(src_fd_.data)
      ensures outcome.Failed? <==> old(pwd_) == []
      ensures dst_fd_.data == if outcome.Failed? then [] else EncryptedFile(cipher, old(pwd_), src_fd_.data)
    {
      if pwd_ == [] {
        return Failed("bad password");
      }
      GenerateDigest();
      Encrypt();
      pwd_ := [];
      outcome := Done;
    }
  }
}
