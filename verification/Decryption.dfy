// src/decrypt.cpp: check the digest, read the length, decrypt full chunks and the last one.
module Decryption {
  import opened Bytes
  import opened Posix
  import opened Handlers
  import opened Encryption
  import Cbc

  const OFF_MOD: nat := 0x1_0000_0000_0000_0000

  /** The eight stored bytes as a signed off_t. */
  function Signed(n: nat): int {
    if n < OFF_MAX then n else n - OFF_MOD
  }

  /** `%` of C++: the sign of the dividend. */
  function Remainder(a: int, b: nat): int
    requires b > 0
  {
    if a >= 0 then a % b else -((-a) % b)
  }

  /** The size_t counter of the rounding loop, which wraps around. */
  function RoundUp16(n: nat): nat {
    (n + ToWhole(n)) % OFF_MOD
  }

  /** Output so far, archive offset, iv, and whether an exception was thrown. */
  datatype Chunks = Chunks(out: seq<byte>, pos: nat, iv: Cbc.Block, ok: bool)

  /** Up to n full chunks: the end of the file stops the loop quietly, a short chunk is an error. */
  function FullChunks(c: Cbc.Cipher, key: Cbc.Block, file: seq<byte>, pos: nat, iv: Cbc.Block, n: nat): (r: Chunks)
    requires pos <= |file|
    ensures pos <= r.pos <= |file|
    decreases n
  {
    var buf := Chunk(file, pos, 4096);
    if n == 0 || buf == [] then Chunks([], pos, iv, true)
    else if |buf| != 4096 then Chunks([], pos + |buf|, iv, false)
    else
      var rest := FullChunks(c, key, file, pos + 4096, Cbc.Carry(iv, buf), n - 1);
      rest.(out := Cbc.Decrypt(c, key, iv, buf) + rest.out)
  }

  datatype Plain = Plain(ok: bool, out: seq<byte>)

  /** The last chunk must have exactly the rounded size; a negative size makes write fail with -1. */
  function LastChunk(c: Cbc.Cipher, key: Cbc.Block, file: seq<byte>, ch: Chunks, last: int): Plain
    requires ch.pos <= |file| && -4096 < last < 4096
  {
    var buf := Chunk(file, ch.pos, 4096);
    if |buf| != RoundUp16(last % OFF_MOD) then Plain(false, ch.out)
    else if last < 0 then Plain(last == -1, ch.out)
    else Plain(true, ch.out + Cbc.Decrypt(c, key, ch.iv, buf)[..last])
  }

  lemma RemainderBound(a: int)
    ensures -4096 < Remainder(a, 4096) < 4096
  {
  }

  function Body(c: Cbc.Cipher, pwd: seq<byte>, file: seq<byte>, size: int): Plain
    requires |file| >= 24
  {
    var ch := FullChunks(c, KeyOf(pwd), file, 24, Zeros(16), if size >= 0 then size / 4096 else 0);
    RemainderBound(size);
    var last := Remainder(size, 4096);
    if !ch.ok || last == 0 then Plain(ch.ok, ch.out) else LastChunk(c, KeyOf(pwd), file, ch, last)
  }

  predicate DigestMatches(c: Cbc.Cipher, pwd: seq<byte>, file: seq<byte>) {
    |file| >= 16 && file[..16] == c.digest(pwd)
  }

  /** What the decryptor makes of any file: success or error, and the bytes written either way. */
  function Decrypted(c: Cbc.Cipher, pwd: seq<byte>, file: seq<byte>): Plain
  {
    if pwd == [] || !DigestMatches(c, pwd, file) || |file| < 24 then Plain(false, [])
    else Body(c, pwd, file, Signed(FromLE(file[16..24])))
  }

  // ---------- what is accepted ----------

  lemma WholeChunks(k: nat)
    ensures (4096 * k) % 16 == 0
  {
  }

  lemma FirstChunk(c: Cbc.Cipher, key: Cbc.Block, file: seq<byte>, pos: nat, iv: Cbc.Block, n: nat)
    requires n > 0 && pos + 4096 <= |file|
    ensures var buf := file[pos..pos + 4096];
      var rest := FullChunks(c, key, file, pos + 4096, Cbc.Carry(iv, buf), n - 1);
      FullChunks(c, key, file, pos, iv, n) == rest.(out := Cbc.Decrypt(c, key, iv, buf) + rest.out)
  {
    assert Chunk(file, pos, 4096) == file[pos..pos + 4096];
  }

  /** k full chunks, then either enough of them or the end of the file: all decrypted, no error. */
  lemma {:induction false} FullRun(c: Cbc.Cipher, key: Cbc.Block, file: seq<byte>, pos: nat, iv: Cbc.Block,
                                   n: nat, k: nat, stop: nat)
    requires k <= n && stop == pos + 4096 * k <= |file| && (k == n || stop == |file|)
    ensures |file[pos..stop]| % 16 == 0
    ensures FullChunks(c, key, file, pos, iv, n)
            == Chunks(Cbc.Decrypt(c, key, iv, file[pos..stop]), stop, Cbc.Carry(iv, file[pos..stop]), true)
    decreases k
  {
    WholeChunks(k);
    if k == 0 {
      assert file[pos..stop] == [];
    } else {
      var at := pos + 4096;
      var buf, tail := file[pos..at], file[at..stop];
      FullRun(c, key, file, at, Cbc.Carry(iv, buf), n - 1, k - 1, stop);
      FirstChunk(c, key, file, pos, iv, n);
      SliceSplit(file, pos, at, stop);
      Cbc.DecryptChunks(c, key, iv, buf, tail);
      Cbc.CarryPast(iv, buf, tail);
    }
  }

  /** The file ends inside one of the n chunks: an error. */
  lemma {:induction false} ShortRun(c: Cbc.Cipher, key: Cbc.Block, file: seq<byte>, pos: nat, iv: Cbc.Block,
                                    n: nat, k: nat, rest: nat)
    requires k < n && |file| == pos + 4096 * k + rest && 0 < rest < 4096
    ensures !FullChunks(c, key, file, pos, iv, n).ok
    decreases k
  {
    if k > 0 {
      var buf := Chunk(file, pos, 4096);
      ShortRun(c, key, file, pos + 4096, Cbc.Carry(iv, buf), n - 1, k - 1, rest);
    }
  }

  /** Which body lengths are accepted with the stored length `size`.  After a length of whole chunks more bytes
      may follow; with an even 4096 bytes the end may come early; a negative length of whole chunks takes any
      body, and one that is -1 past them takes the empty one. */
  predicate Accepts(size: int, body: nat) {
    if size < 0 then size % 4096 == 0 || (Remainder(size, 4096) == -1 && body == 0) else AcceptsLength(size, body)
  }

  predicate AcceptsLength(size: nat, body: nat) {
    var whole := size + ToWhole(size);
    if whole % 4096 != 0 then body == whole else body >= whole || (size % 4096 == 0 && body % 4096 == 0)
  }

  /** The bytes that are decrypted from an accepted body. */
  function Used(size: nat, body: nat): nat {
    Min(size + ToWhole(size), body)
  }

  /** The split of a stored length and of a body into full chunks and a rest. */
  lemma SplitBody(size: nat, body: nat) returns (n: nat, last: nat, k: nat, rest: nat, tail: nat)
    ensures tail == last + ToWhole(last) && tail % 16 == 0
    ensures size == 4096 * n + last && last < 4096 && n == size / 4096 && last == size % 4096
    ensures body == 4096 * k + rest && k <= n && (k < n ==> rest < 4096)
    ensures last == 0 ==> (AcceptsLength(size, body) <==> k == n || rest == 0)
    ensures last != 0 ==> (AcceptsLength(size, body) <==> k == n && Min(rest, 4096) == tail)
    ensures last == 0 && AcceptsLength(size, body) ==> Used(size, body) == Min(size, body) == 4096 * k
    ensures last != 0 && AcceptsLength(size, body) ==>
      Used(size, body) == 4096 * k + tail && Min(size, body) == 4096 * k + last
  {
    n, last := size / 4096, size % 4096;
    k := if body >= 4096 * n then n else body / 4096;
    rest, tail := body - 4096 * k, last + ToWhole(last);
    SplitRounds(n, last);
  }

  lemma SplitRounds(n: nat, last: nat)
    ensures ToWhole(4096 * n + last) == ToWhole(last)
  {
  }

  lemma LastRounds(last: nat)
    requires 0 < last < 4096
    ensures RoundUp16(last % OFF_MOD) == last + ToWhole(last) <= 4096
  {
  }

  /** Cutting the padding off the last chunk is cutting it off the whole message. */
  lemma CutTail(c: Cbc.Cipher, key: Cbc.Block, iv: Cbc.Block, head: seq<byte>, tail: seq<byte>, last: nat)
    requires |head| % 16 == 0 && |tail| % 16 == 0 && last <= |tail|
    ensures |head + tail| % 16 == 0
    ensures Cbc.Decrypt(c, key, iv, head) + Cbc.Decrypt(c, key, Cbc.Carry(iv, head), tail)[..last]
            == Cbc.Decrypt(c, key, iv, head + tail)[..|head| + last]
  {
    Cbc.DecryptChunks(c, key, iv, head, tail);
  }

  /** `whole` is what is decrypted and `len` what is kept of it. */
  ghost predicate DecryptsTo(c: Cbc.Cipher, pwd: seq<byte>, file: seq<byte>, used: nat, len: nat, out: seq<byte>) {
    24 + used <= |file| && used % 16 == 0 && len <= used
    && out == Cbc.Decrypt(c, KeyOf(pwd), Zeros(16), file[24..24 + used])[..len]
  }

  /** A length of whole chunks leaves no last chunk. */
  lemma NoLastChunk(c: Cbc.Cipher, pwd: seq<byte>, file: seq<byte>, n: nat)
    requires |file| >= 24
    ensures var ch := FullChunks(c, KeyOf(pwd), file, 24, Zeros(16), n);
      Body(c, pwd, file, 4096 * n) == Plain(ch.ok, ch.out)
  {
    assert 4096 * n / 4096 == n && Remainder(4096 * n, 4096) == 0;
  }

  lemma BodyWhole(c: Cbc.Cipher, pwd: seq<byte>, file: seq<byte>, size: nat, n: nat, k: nat, rest: nat)
    requires |file| == 24 + 4096 * k + rest && k <= n && (k < n ==> rest < 4096) && size == 4096 * n
    ensures Body(c, pwd, file, size).ok <==> k == n || rest == 0
    ensures Body(c, pwd, file, size).ok ==> DecryptsTo(c, pwd, file, 4096 * k, 4096 * k, Body(c, pwd, file, size).out)
  {
    var key, stop := KeyOf(pwd), 24 + 4096 * k;
    NoLastChunk(c, pwd, file, n);
    if k < n && rest > 0 {
      ShortRun(c, key, file, 24, Zeros(16), n, k, rest);
    } else {
      FullRun(c, key, file, 24, Zeros(16), n, k, stop);
      var whole := Cbc.Decrypt(c, key, Zeros(16), file[24..stop]);
      assert whole[..4096 * k] == whole;
    }
  }

  /** The last chunk is taken when it has exactly `tail` bytes, and `last` bytes of it are kept. */
  function TakeLast(c: Cbc.Cipher, key: Cbc.Block, file: seq<byte>, ch: Chunks, last: nat, tail: nat): Plain
    requires ch.pos <= |file| && last <= tail && tail % 16 == 0
  {
    var buf := Chunk(file, ch.pos, 4096);
    if |buf| != tail then Plain(false, ch.out) else Plain(true, ch.out + Cbc.Decrypt(c, key, ch.iv, buf)[..last])
  }

  lemma TakesLast(c: Cbc.Cipher, pwd: seq<byte>, file: seq<byte>, size: nat, last: nat)
    requires |file| >= 24 && 0 < last == size % 4096
    ensures var ch := FullChunks(c, KeyOf(pwd), file, 24, Zeros(16), size / 4096);
      Body(c, pwd, file, size)
      == if ch.ok then TakeLast(c, KeyOf(pwd), file, ch, last, last + ToWhole(last)) else Plain(false, ch.out)
  {
    LastRounds(last);
  }

  /** The chunk behind `used` bytes of body completes the message decrypted before it. */
  lemma LastPart(c: Cbc.Cipher, pwd: seq<byte>, file: seq<byte>, ch: Chunks, used: nat, last: nat, tail: nat)
    requires ch.pos == 24 + used <= |file| && last <= tail <= 4096 && tail % 16 == 0
    requires used % 16 == 0 && ch.out == Cbc.Decrypt(c, KeyOf(pwd), Zeros(16), file[24..ch.pos])
    requires ch.iv == Cbc.Carry(Zeros(16), file[24..ch.pos])
    ensures var r := TakeLast(c, KeyOf(pwd), file, ch, last, tail);
      && (r.ok <==> Min(|file| - ch.pos, 4096) == tail)
      && (r.ok ==> DecryptsTo(c, pwd, file, used + tail, used + last, r.out))
  {
    if Min(|file| - ch.pos, 4096) == tail {
      assert Chunk(file, ch.pos, 4096) == file[ch.pos..ch.pos + tail];
      Completes(c, pwd, file, used, last, tail);
    }
  }

  lemma Completes(c: Cbc.Cipher, pwd: seq<byte>, file: seq<byte>, used: nat, last: nat, tail: nat)
    requires 24 + used + tail <= |file| && used % 16 == 0 && tail % 16 == 0 && last <= tail
    ensures var head, next := file[24..24 + used], file[24 + used..24 + used + tail];
      DecryptsTo(c, pwd, file, used + tail, used + last,
        Cbc.Decrypt(c, KeyOf(pwd), Zeros(16), head)
        + Cbc.Decrypt(c, KeyOf(pwd), Cbc.Carry(Zeros(16), head), next)[..last])
  {
    var stop := 24 + used + tail;
    CutTail(c, KeyOf(pwd), Zeros(16), file[24..24 + used], file[24 + used..stop], last);
    SliceSplit(file, 24, 24 + used, stop);
  }

  /** A file with k of n full chunks and `rest` bytes behind them, of which the last chunk is taken. */
  lemma BodyPart(c: Cbc.Cipher, pwd: seq<byte>, file: seq<byte>, n: nat, last: nat, k: nat, rest: nat, tail: nat)
    requires |file| == 24 + 4096 * k + rest && k <= n && (k < n ==> rest < 4096)
    requires 0 < last <= tail <= 4096 && tail % 16 == 0
    ensures var ch := FullChunks(c, KeyOf(pwd), file, 24, Zeros(16), n);
      var r := if ch.ok then TakeLast(c, KeyOf(pwd), file, ch, last, tail) else Plain(false, ch.out);
      && (r.ok <==> k == n && Min(rest, 4096) == tail)
      && (r.ok ==> DecryptsTo(c, pwd, file, 4096 * k + tail, 4096 * k + last, r.out))
  {
    if k < n && rest > 0 {
      ShortRun(c, KeyOf(pwd), file, 24, Zeros(16), n, k, rest);
    } else {
      var used := 4096 * k;
      FullRun(c, KeyOf(pwd), file, 24, Zeros(16), n, k, 24 + used);
      assert used % 16 == 0 by { WholeChunks(k); }
      LastPart(c, pwd, file, FullChunks(c, KeyOf(pwd), file, 24, Zeros(16), n), used, last, tail);
    }
  }

  lemma PartAccepted(c: Cbc.Cipher, pwd: seq<byte>, file: seq<byte>, size: nat, r: Plain)
    requires |file| >= 24 && 0 < size % 4096 && size % 4096 + ToWhole(size % 4096) <= 4096
    requires var ch, last := FullChunks(c, KeyOf(pwd), file, 24, Zeros(16), size / 4096), size % 4096;
      r == if ch.ok then TakeLast(c, KeyOf(pwd), file, ch, last, last + ToWhole(last)) else Plain(false, ch.out)
    ensures var body := |file| - 24;
      && (r.ok <==> AcceptsLength(size, body))
      && (r.ok ==> DecryptsTo(c, pwd, file, Used(size, body), Min(size, body), r.out))
  {
    var body := |file| - 24;
    var n, last, k, rest, tail := SplitBody(size, body);
    BodyPart(c, pwd, file, n, last, k, rest, tail);
    assert r.ok <==> k == n && Min(rest, 4096) == tail;
  }

  lemma LengthAccepted(c: Cbc.Cipher, pwd: seq<byte>, file: seq<byte>, size: nat)
    requires |file| >= 24
    ensures var body := |file| - 24; var r := Body(c, pwd, file, size);
      && (r.ok <==> AcceptsLength(size, body))
      && (r.ok ==> DecryptsTo(c, pwd, file, Used(size, body), Min(size, body), r.out))
  {
    if size % 4096 == 0 {
      var n, _, k, rest, _ := SplitBody(size, |file| - 24);
      BodyWhole(c, pwd, file, size, n, k, rest);
    } else {
      LastRounds(size % 4096);
      TakesLast(c, pwd, file, size, size % 4096);
      PartAccepted(c, pwd, file, size, Body(c, pwd, file, size));
    }
  }

  lemma NegativeRounds(last: int)
    requires -4096 < last < 0
    ensures RoundUp16(last % OFF_MOD) == (if last > -16 then 0 else OFF_MOD + last + ToWhole(OFF_MOD + last))
    ensures last <= -16 ==> RoundUp16(last % OFF_MOD) > 4096
  {
    assert last % OFF_MOD == OFF_MOD + last;
  }

  lemma NegativeRemainder(size: int)
    requires size < 0
    ensures -4096 < Remainder(size, 4096) <= 0 && (Remainder(size, 4096) == 0 <==> size % 4096 == 0)
  {
  }

  /** With a negative length no full chunk is read, and the last one cannot be written. */
  lemma NegativeAccepted(c: Cbc.Cipher, pwd: seq<byte>, file: seq<byte>, size: int)
    requires |file| >= 24 && size < 0
    ensures var r := Body(c, pwd, file, size);
      r.out == [] && (r.ok <==> size % 4096 == 0 || (Remainder(size, 4096) == -1 && |file| == 24))
  {
    NegativeRemainder(size);
    var last := Remainder(size, 4096);
    if last != 0 { NegativeRounds(last); }
  }

  /** The stored length of a file that has one. */
  function StoredSize(file: seq<byte>): int
    requires |file| >= 24
  {
    Signed(FromLE(file[16..24]))
  }

  /** For any bytes: accepted exactly with a whole header, under the right digest, with a fitting body length.
      Then the output is a prefix of the CBC decryption of the whole body, or empty for a negative length. */
  lemma AcceptedExactly(c: Cbc.Cipher, pwd: seq<byte>, file: seq<byte>)
    ensures var r := Decrypted(c, pwd, file);
      && (r.ok <==> |file| >= 24 && pwd != [] && DigestMatches(c, pwd, file) && Accepts(StoredSize(file), |file| - 24))
      && (r.ok && StoredSize(file) >= 0 ==>
            DecryptsTo(c, pwd, file, Used(StoredSize(file), |file| - 24), Min(StoredSize(file), |file| - 24), r.out))
      && (r.ok && StoredSize(file) < 0 ==> r.out == [])
  {
    if |file| >= 24 {
      var size := StoredSize(file);
      if size < 0 { NegativeAccepted(c, pwd, file, size); } else { LengthAccepted(c, pwd, file, size); }
    }
  }

  // ---------- round trip ----------

  lemma FileParts(c: Cbc.Cipher, pwd: seq<byte>, data: seq<byte>)
    requires |data| < OFF_MAX
    ensures var file := EncryptedFile(c, pwd, data);
      && |file| == 24 + |data| + ToWhole(|data|) && file[..16] == c.digest(pwd)
      && FromLE(file[16..24]) == |data| && file[24..] == CipherText(c, pwd, data)
  {
    var file := EncryptedFile(c, pwd, data);
    Pow256Values();
    FromLEofLE(|data|, 8);
    assert file[16..24] == LE(|data|, 8);
  }

  lemma AcceptsOwn(size: nat)
    ensures AcceptsLength(size, size + ToWhole(size)) && Used(size, size + ToWhole(size)) == size + ToWhole(size)
  {
  }

  lemma Unpadded(c: Cbc.Cipher, pwd: seq<byte>, data: seq<byte>)
    requires Cbc.Invertible(c)
    ensures Cbc.Decrypt(c, KeyOf(pwd), Zeros(16), CipherText(c, pwd, data))[..|data|] == data
  {
    Cbc.RoundTrip(c, KeyOf(pwd), Zeros(16), Pad16(data));
    assert Pad16(data)[..|data|] == data;
  }

  /** Decrypting an encrypted file of any length: the password is accepted exactly when it is not empty and
      its digest is the stored one; and if it also gives the same key, the original bytes come back. */
  lemma DecryptEncrypted(c: Cbc.Cipher, pwd: seq<byte>, other: seq<byte>, data: seq<byte>)
    requires Cbc.Invertible(c) && |data| < OFF_MAX
    ensures var r := Decrypted(c, other, EncryptedFile(c, pwd, data));
      && (r.ok <==> other != [] && c.digest(other) == c.digest(pwd))
      && (r.ok && SameKey(other, pwd) ==> r.out == data)
      && (!r.ok ==> r.out == [])
  {
    FileParts(c, pwd, data);
    DecryptParts(c, pwd, other, EncryptedFile(c, pwd, data), data);
  }

  lemma DecryptParts(c: Cbc.Cipher, pwd: seq<byte>, other: seq<byte>, file: seq<byte>, data: seq<byte>)
    requires Cbc.Invertible(c) && |file| == 24 + |data| + ToWhole(|data|) && StoredSize(file) == |data|
    requires file[..16] == c.digest(pwd) && file[24..] == CipherText(c, pwd, data)
    ensures var r := Decrypted(c, other, file);
      && (r.ok <==> other != [] && c.digest(other) == c.digest(pwd))
      && (r.ok && SameKey(other, pwd) ==> r.out == data)
      && (!r.ok ==> r.out == [])
  {
    var r, size := Decrypted(c, other, file), |data|;
    AcceptedExactly(c, other, file);
    assert Accepts(size, |file| - 24) && Used(size, |file| - 24) == |file| - 24 && Min(size, |file| - 24) == size by {
      AcceptsOwn(size);
    }
    KeysAgreeIff(other, pwd);
    if r.ok && SameKey(other, pwd) {
      assert file[24..24 + (|file| - 24)] == CipherText(c, pwd, data);
      Unpadded(c, pwd, data);
    }
  }

  // ---------- bodies that should not be accepted ----------

  lemma CutParts(c: Cbc.Cipher, pwd: seq<byte>, data: seq<byte>, cut: nat) returns (file: seq<byte>)
    requires |data| < OFF_MAX && cut <= |data|
    ensures 24 + cut <= |EncryptedFile(c, pwd, data)| && file == EncryptedFile(c, pwd, data)[..24 + cut]
    ensures |file| == 24 + cut && DigestMatches(c, pwd, file) && StoredSize(file) == |data|
    ensures file[24..24 + cut] == CipherText(c, pwd, data)[..cut]
  {
    var whole := EncryptedFile(c, pwd, data);
    FileParts(c, pwd, data);
    file := whole[..24 + cut];
    assert file[..16] == whole[..16] && file[16..24] == whole[16..24];
    assert file[24..24 + cut] == whole[24..][..cut];
  }

  /** The cipher text of a cut message is the cut cipher text. */
  lemma CutCipherText(c: Cbc.Cipher, pwd: seq<byte>, data: seq<byte>, cut: nat)
    requires cut <= |data| && cut % 16 == 0
    ensures CipherText(c, pwd, data)[..cut] == CipherText(c, pwd, data[..cut])
  {
    var a, b := data[..cut], data[cut..];
    assert data == a + b;
    NextChunk(c, pwd, a, b);
  }

  /** An encrypted file of whole chunks, cut off between two chunks, is decrypted without an error. */
  lemma CutIsAccepted(c: Cbc.Cipher, pwd: seq<byte>, data: seq<byte>, cut: nat)
    requires Cbc.Invertible(c) && pwd != []
    requires |data| < OFF_MAX && |data| % 4096 == 0 && cut % 4096 == 0 && cut <= |data|
    ensures 24 + cut <= |EncryptedFile(c, pwd, data)|
    ensures Decrypted(c, pwd, EncryptedFile(c, pwd, data)[..24 + cut]) == Plain(true, data[..cut])
  {
    var file := CutParts(c, pwd, data, cut);
    AcceptedExactly(c, pwd, file);
    CutFits(|data|, cut);
    CutCipherText(c, pwd, data, cut);
    Unpadded(c, pwd, data[..cut]);
  }

  lemma ChunksAreWhole(size: nat)
    requires size % 4096 == 0
    ensures size % 16 == 0
  {
    WholeChunks(size / 4096);
  }

  lemma CutFits(size: nat, cut: nat)
    requires size % 4096 == 0 && cut % 4096 == 0 && cut <= size
    ensures cut % 16 == 0 && Accepts(size, cut) && Used(size, cut) == cut && Min(size, cut) == cut
  {
    ChunksAreWhole(size);
    ChunksAreWhole(cut);
    assert size + ToWhole(size) == size;
  }

  /** For one: a chunk of zeros encrypted, and only the header kept; the data is lost without an error. */
  lemma LostWithoutError(c: Cbc.Cipher, pwd: seq<byte>)
    requires Cbc.Invertible(c) && pwd != []
    ensures |EncryptedFile(c, pwd, Zeros(4096))| == 24 + 4096
    ensures Decrypted(c, pwd, EncryptedFile(c, pwd, Zeros(4096))[..24]) == Plain(true, [])
  {
    FileParts(c, pwd, Zeros(4096));
    CutIsAccepted(c, pwd, Zeros(4096), 0);
    assert Zeros(4096)[..0] == [];
  }

  /** A stored length of -4096 takes any body, and writes nothing. */
  lemma NegativeLengthAccepted(c: Cbc.Cipher, pwd: seq<byte>, body: seq<byte>)
    requires pwd != []
    ensures Decrypted(c, pwd, c.digest(pwd) + LE(OFF_MOD - 4096, 8) + body) == Plain(true, [])
  {
    var file := c.digest(pwd) + LE(OFF_MOD - 4096, 8) + body;
    Pow256Values();
    FromLEofLE(OFF_MOD - 4096, 8);
    assert file[..16] == c.digest(pwd) && file[16..24] == LE(OFF_MOD - 4096, 8);
    AcceptedExactly(c, pwd, file);
  }

  // ---------- the decryptor ----------

  lemma WholeStep(n: nat)
    requires n % 16 != 0
    ensures ToWhole(n + 1) == ToWhole(n) - 1
  {
  }

  lemma RoundStep(n: nat)
    requires n < OFF_MOD && n % 16 != 0
    ensures RoundUp16((n + 1) % OFF_MOD) == RoundUp16(n) && ToWhole((n + 1) % OFF_MOD) < ToWhole(n)
  {
    WholeStep(n);
    if n + 1 == OFF_MOD {
      assert (n + 1) % OFF_MOD == 0;
    } else {
      assert (n + 1) % OFF_MOD == n + 1;
    }
  }

  class Decryptor {
    const cipher: Cbc.Cipher
    const src_fd_: File
    const dst_fd_: File
    var src_file_size_: int
    var pwd_: seq<byte>

    constructor (c: Cbc.Cipher, src: File, dst: File, pwd: seq<byte>)
      ensures cipher == c && src_fd_ == src && dst_fd_ == dst && pwd_ == pwd
    {
      cipher, src_fd_, dst_fd_, src_file_size_, pwd_ := c, src, dst, 0, pwd;
    }

    method CheckDigest() returns (outcome: Outcome)
      requires src_fd_.pos == 0
      modifies src_fd_
      ensures src_fd_.data == old(src_fd_.data)
      ensures outcome.Failed? <==> !DigestMatches(cipher, pwd_, src_fd_.data)
      ensures outcome.Done? ==> src_fd_.pos == 16
    {
      var digest := src_fd_.Read(16);
      if |digest| != 16 {
        return Failed("failed to read");
      }
      var out := cipher.digest(pwd_);
      for i := 0 to 16
        invariant digest[..i] == out[..i]
      {
        if digest[i] != out[i] {
          return Failed("wrong password");
        }
      }
      assert digest[..16] == digest && out[..16] == out;
      outcome := Done;
    }

    /** The counter of the rounding loop, modulo 2^64. */
    method RoundLast(last: nat) returns (n: nat)
      requires last < OFF_MOD
      ensures n == RoundUp16(last)
    {
      n := last;
      while n % 16 != 0
        invariant n < OFF_MOD && RoundUp16(n) == RoundUp16(last)
        decreases ToWhole(n)
      {
        RoundStep(n);
        n := (n + 1) % OFF_MOD;
      }
    }

    /** The full chunks: quiet at the end of the file, an error on a short chunk. */
    method DecryptFull(key: Cbc.Block, n: nat) returns (ok: bool, iv: Cbc.Block)
      requires src_fd_ != dst_fd_ && src_fd_.pos <= |src_fd_.data| && dst_fd_.pos == |dst_fd_.data|
      modifies src_fd_, dst_fd_
      ensures src_fd_.data == old(src_fd_.data) && src_fd_.pos <= |src_fd_.data|
      ensures dst_fd_.pos == |dst_fd_.data|
      ensures var r := FullChunks(cipher, key, src_fd_.data, old(src_fd_.pos), Zeros(16), n);
        && ok == r.ok && dst_fd_.data == old(dst_fd_.data) + r.out && (ok ==> src_fd_.pos == r.pos && iv == r.iv)
    {
      ghost var file := src_fd_.data;
      ghost var goal := FullChunks(cipher, key, file, src_fd_.pos, Zeros(16), n);
      ghost var base := dst_fd_.data;
      iv := Zeros(16);
      assert base + goal.out == dst_fd_.data + goal.out;
      var left := n;
      while left > 0
        invariant src_fd_.data == file && src_fd_.pos <= |file| && dst_fd_.pos == |dst_fd_.data|
        invariant StillToDecrypt(cipher, key, file, src_fd_.pos, iv, left, dst_fd_.data, base, goal)
      {
        ghost var at := src_fd_.pos;
        var buf := src_fd_.Read(MAX_BUF_SIZE);
        if buf == [] {
          break;
        }
        if |buf| != MAX_BUF_SIZE {
          ok := false;
          return;
        }
        var write := Cbc.Decrypt(cipher, key, iv, buf);
        DecryptNext(cipher, key, file, at, iv, left, dst_fd_.data, base, goal);
        iv := Cbc.Carry(iv, buf);
        SpliceAtEnd(dst_fd_.data, write);
        dst_fd_.Write(write);
        left := left - 1;
      }
      ok := true;
    }

    /** The last chunk; -1 is all a write of negative length returns. */
    method DecryptLast(key: Cbc.Block, iv: Cbc.Block, last: int, ghost ch: Chunks) returns (outcome: Outcome)
      requires src_fd_ != dst_fd_ && src_fd_.pos <= |src_fd_.data| && dst_fd_.pos == |dst_fd_.data|
      requires -4096 < last < 4096
      requires ch.pos == src_fd_.pos && ch.iv == iv && ch.out == dst_fd_.data
      modifies src_fd_, dst_fd_
      ensures src_fd_.data == old(src_fd_.data)
      ensures var r := LastChunk(cipher, key, src_fd_.data, ch, last); outcome.Done? == r.ok && dst_fd_.data == r.out
    {
      var rounded := RoundLast(last % OFF_MOD);
      var buf := src_fd_.Read(MAX_BUF_SIZE);
      if |buf| != rounded {
        return Failed("something is wrong with src file size");
      }
      if last >= 0 {
        var write := Cbc.Decrypt(cipher, key, iv, buf)[..last];
        SpliceAtEnd(dst_fd_.data, write);
        dst_fd_.Write(write);
        return Done;
      }
      outcome := if last == -1 then Done else Failed("failed to write dst file");
    }

    method Decrypt() returns (outcome: Outcome)
      requires src_fd_ != dst_fd_ && src_fd_.pos == 16 <= |src_fd_.data| && dst_fd_.data == [] && dst_fd_.pos == 0
      modifies this`src_file_size_, src_fd_, dst_fd_
      ensures src_fd_.data == old(src_fd_.data)
      ensures |src_fd_.data| < 24 ==> outcome.Failed? && dst_fd_.data == []
      ensures |src_fd_.data| >= 24 ==>
        var r := Body(cipher, pwd_, src_fd_.data, Signed(FromLE(src_fd_.data[16..24])));
        outcome.Done? == r.ok && dst_fd_.data == r.out
    {
      var word := src_fd_.Read(8);
      if |word| != 8 {
        return Failed("failed to read");
      }
      src_file_size_ := Signed(FromLE(word));
      var key := MakeKey(pwd_);
      var n := if src_file_size_ >= 0 then src_file_size_ / MAX_BUF_SIZE else 0;
      var last := Remainder(src_file_size_, MAX_BUF_SIZE);
      RemainderBound(src_file_size_);
      var ok, iv := DecryptFull(key, n);
      if !ok {
        return Failed("read failed");
      }
      if last == 0 {
        return Done;
      }
      outcome := DecryptLast(key, iv, last, FullChunks(cipher, key, src_fd_.data, 24, Zeros(16), n));
    }

    /** Empty password and wrong digest leave the target empty; the archive itself is only read. */
    method Handle() returns (outcome: Outcome)
      requires src_fd_ != dst_fd_ && src_fd_.pos == 0 && dst_fd_.data == [] && dst_fd_.pos == 0
      modifies this, src_fd_, dst_fd_
      ensures src_fd_.data == old(src_fd_.data)
      ensures var r := Decrypted(cipher, old(pwd_), src_fd_.data); outcome.Done? == r.ok && dst_fd_.data == r.out
    {
      if pwd_ == [] {
        return Failed("bad password");
      }
      outcome := CheckDigest();
      if outcome.Failed? {
        return;
      }
      outcome := Decrypt();
      if outcome.Done? {
        pwd_ := [];
      }
    }
  }

  ghost predicate StillToDecrypt(c: Cbc.Cipher, key: Cbc.Block, file: seq<byte>, pos: nat, iv: Cbc.Block, left: nat,
                                 disk: seq<byte>, base: seq<byte>, goal: Chunks) {
    pos <= |file|
    && var r := FullChunks(c, key, file, pos, iv, left);
      base + goal.out == disk + r.out && goal.pos == r.pos && goal.iv == r.iv && goal.ok == r.ok
  }

  lemma DecryptNext(c: Cbc.Cipher, key: Cbc.Block, file: seq<byte>, pos: nat, iv: Cbc.Block, left: nat,
                    disk: seq<byte>, base: seq<byte>, goal: Chunks)
    requires StillToDecrypt(c, key, file, pos, iv, left, disk, base, goal)
    requires left > 0 && |Chunk(file, pos, 4096)| == 4096
    ensures var buf := Chunk(file, pos, 4096);
      StillToDecrypt(c, key, file, pos + 4096, Cbc.Carry(iv, buf), left - 1, disk + Cbc.Decrypt(c, key, iv, buf),
                     base, goal)
  {
    var buf := Chunk(file, pos, 4096);
    var rest := FullChunks(c, key, file, pos + 4096, Cbc.Carry(iv, buf), left - 1);
    Cbc.Regroup(disk, Cbc.Decrypt(c, key, iv, buf), rest.out);
  }
}
