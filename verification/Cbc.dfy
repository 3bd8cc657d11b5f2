// Cipher block chaining (section 6.2 of NIST SP 800-38A) over any invertible 16-byte block cipher.
module Cbc {
  import opened Bytes

  type Block = s: seq<byte> | |s| == 16 witness Zeros(16)

  /** A block cipher (key, block) and a digest; AES-128 and MD5 in the program. */
  datatype Cipher = Cipher(enc: (Block, Block) -> Block, dec: (Block, Block) -> Block, digest: seq<byte> -> Block)

  ghost predicate Invertible(c: Cipher) {
    forall key, block :: c.dec(key, c.enc(key, block)) == block
  }

  function Encrypt(c: Cipher, key: Block, iv: Block, m: seq<byte>): (r: seq<byte>)
    requires |m| % 16 == 0
    ensures |r| == |m|
    decreases |m|
  {
    if m == [] then []
    else var block := c.enc(key, Xor(m[..16], iv)); block + Encrypt(c, key, block, m[16..])
  }

  function Decrypt(c: Cipher, key: Block, iv: Block, s: seq<byte>): (r: seq<byte>)
    requires |s| % 16 == 0
    ensures |r| == |s|
    decreases |s|
  {
    if s == [] then []
    else Xor(c.dec(key, s[..16]), iv) + Decrypt(c, key, s[..16], s[16..])
  }

  /** What AES_cbc_encrypt leaves in its iv: the last cipher block. */
  function Carry(iv: Block, s: seq<byte>): (r: Block)
    requires |s| % 16 == 0
  {
    if s == [] then iv else s[|s| - 16..]
  }

  lemma WholeSum(x: nat, y: nat)
    requires x % 16 == 0 && y % 16 == 0
    ensures (x + y) % 16 == 0
  {
  }

  lemma CarryPast(iv: Block, a: seq<byte>, b: seq<byte>)
    requires |a| % 16 == 0 && |b| % 16 == 0
    ensures |a + b| % 16 == 0 && Carry(iv, a + b) == Carry(Carry(iv, a), b)
  {
    WholeSum(|a|, |b|);
    if b == [] {
      assert a + b == a;
    } else {
      assert |b| >= 16;
      assert (a + b)[|a| + |b| - 16..] == b[|b| - 16..];
    }
  }

  /** Decryption inverts encryption, for every message of whole blocks. */
  lemma {:induction false} RoundTrip(c: Cipher, key: Block, iv: Block, m: seq<byte>)
    requires Invertible(c) && |m| % 16 == 0
    ensures Decrypt(c, key, iv, Encrypt(c, key, iv, m)) == m
    decreases |m|
  {
    if m != [] {
      var first: Block, rest := m[..16], m[16..];
      var x: Block := Xor(first, iv);
      var block := c.enc(key, x);
      var s := Encrypt(c, key, iv, m);
      assert s[..16] == block && s[16..] == Encrypt(c, key, block, rest);
      assert c.dec(key, block) == x;
      XorTwice(first, iv);
      RoundTrip(c, key, block, rest);
      assert m == first + rest;
    }
  }

  lemma EncryptFirst(c: Cipher, key: Block, iv: Block, first: Block, rest: seq<byte>)
    requires |first| == 16 && |rest| % 16 == 0
    ensures var block := c.enc(key, Xor(first, iv));
      Encrypt(c, key, iv, first + rest) == block + Encrypt(c, key, block, rest)
  {
    assert (first + rest)[..16] == first && (first + rest)[16..] == rest;
  }

  lemma DecryptFirst(c: Cipher, key: Block, iv: Block, first: Block, rest: seq<byte>)
    requires |first| == 16 && |rest| % 16 == 0
    ensures Decrypt(c, key, iv, first + rest) == Xor(c.dec(key, first), iv) + Decrypt(c, key, first, rest)
  {
    assert (first + rest)[..16] == first && (first + rest)[16..] == rest;
  }

  /** Block i of the cipher text: the plain block xored with the cipher block before it, or with the iv. */
  lemma {:induction false} BlockAt(c: Cipher, key: Block, iv: Block, m: seq<byte>, i: nat)
    requires |m| % 16 == 0 && 16 * i + 16 <= |m|
    ensures var s, at := Encrypt(c, key, iv, m), 16 * i;
      s[at..at + 16] == c.enc(key, Xor(m[at..at + 16], if i == 0 then iv else s[at - 16..at]))
    decreases i
  {
    var block := c.enc(key, Xor(m[..16], iv));
    var s, rest := Encrypt(c, key, iv, m), Encrypt(c, key, block, m[16..]);
    assert s == block + rest;
    if i == 0 {
      assert s[0..16] == block && m[0..16] == m[..16];
    } else {
      BlockAt(c, key, block, m[16..], i - 1);
      BlockBehind(block, rest, 16 * i);
      Behind(m, 16 * i);
      if i == 1 { assert s[0..16] == block; } else { BlockBehind(block, rest, 16 * i - 16); }
    }
  }

  /** Block i of the plain text, for any cipher text. */
  lemma {:induction false} PlainAt(c: Cipher, key: Block, iv: Block, s: seq<byte>, i: nat)
    requires |s| % 16 == 0 && 16 * i + 16 <= |s|
    ensures var m, at := Decrypt(c, key, iv, s), 16 * i;
      m[at..at + 16] == Xor(c.dec(key, s[at..at + 16]), if i == 0 then iv else s[at - 16..at])
    decreases i
  {
    var first: Block := s[..16];
    var m, rest := Decrypt(c, key, iv, s), Decrypt(c, key, first, s[16..]);
    assert m == Xor(c.dec(key, first), iv) + rest;
    if i == 0 {
      assert m[0..16] == Xor(c.dec(key, first), iv) && s[0..16] == first;
    } else {
      PlainAt(c, key, first, s[16..], i - 1);
      BlockBehind(Xor(c.dec(key, first), iv), rest, 16 * i);
      Behind(s, 16 * i);
      if i == 1 {
        assert s[0..16] == first;
      } else {
        Behind(s, 16 * i - 16);
      }
    }
  }

  lemma Behind(s: seq<byte>, at: nat)
    requires 16 <= at && at + 16 <= |s|
    ensures s[16..][at - 16..at] == s[at..at + 16]
  {
  }

  lemma BlockBehind(first: Block, rest: seq<byte>, at: nat)
    requires 16 <= at && at <= |rest|
    ensures (first + rest)[at..at + 16] == rest[at - 16..at]
  {
  }

  lemma Regroup(x: seq<byte>, y: seq<byte>, z: seq<byte>)
    ensures x + (y + z) == (x + y) + z
  {
  }

  /** Chunk by chunk with the carried iv is the same as the whole message at once. */
  lemma {:induction false} EncryptChunks(c: Cipher, key: Block, iv: Block, a: seq<byte>, b: seq<byte>)
    requires |a| % 16 == 0 && |b| % 16 == 0
    ensures |a + b| % 16 == 0
    ensures Encrypt(c, key, iv, a + b)
            == Encrypt(c, key, iv, a) + Encrypt(c, key, Carry(iv, Encrypt(c, key, iv, a)), b)
    decreases |a|
  {
    WholeSum(|a|, |b|);
    if a == [] {
      assert a + b == b;
    } else {
      var first, rest := a[..16], a[16..];
      var block := c.enc(key, Xor(first, iv));
      var s := Encrypt(c, key, block, rest);
      var t := Encrypt(c, key, Carry(block, s), b);
      EncryptChunks(c, key, block, rest, b);
      EncryptFirst(c, key, iv, first, rest + b);
      Regroup(first, rest, b);
      assert a == first + rest;
      Regroup(block, s, t);
      CarryPast(iv, block, s);
    }
  }

  lemma {:induction false} DecryptChunks(c: Cipher, key: Block, iv: Block, a: seq<byte>, b: seq<byte>)
    requires |a| % 16 == 0 && |b| % 16 == 0
    ensures |a + b| % 16 == 0
    ensures Decrypt(c, key, iv, a + b) == Decrypt(c, key, iv, a) + Decrypt(c, key, Carry(iv, a), b)
    decreases |a|
  {
    WholeSum(|a|, |b|);
    if a == [] {
      assert a + b == b;
    } else {
      var first, rest := a[..16], a[16..];
      var head := Xor(c.dec(key, first), iv);
      DecryptChunks(c, key, first, rest, b);
      DecryptFirst(c, key, iv, first, rest + b);
      DecryptFirst(c, key, iv, first, rest);
      Regroup(first, rest, b);
      assert a == first + rest;
      Regroup(head, Decrypt(c, key, first, rest), Decrypt(c, key, Carry(first, rest), b));
      CarryPast(iv, first, rest);
    }
  }
}
