// Bytes, bits inside a byte, and fixed-width little-endian integers.
module Bytes {

  type byte = x: int | 0 <= x < 256

  const U64: nat := 0x1_0000_0000_0000_0000

  function Pow2(n: nat): (p: nat)
    ensures p > 0
  {
    if n == 0 then 1 else 2 * Pow2(n - 1)
  }

  function Pow256(k: nat): (p: nat)
    ensures p > 0
  {
    if k == 0 then 1 else 256 * Pow256(k - 1)
  }

  lemma Associative<T>(a: seq<T>, b: seq<T>, c: seq<T>)
    ensures a + b + c == a + (b + c)
  {
  }

  lemma SliceSplit<T>(s: seq<T>, i: nat, j: nat, k: nat)
    requires i <= j <= k <= |s|
    ensures s[i..k] == s[i..j] + s[j..k]
  {
  }

  lemma WholePrefix<T>(s: seq<T>)
    ensures s[..|s|] == s
  {
  }

  lemma SliceBehind<T>(a: seq<T>, b: seq<T>, i: nat, j: nat)
    requires i <= j <= |b|
    ensures (a + b)[|a| + i..|a| + j] == b[i..j]
  {
  }

  lemma SplitAt<T>(s: seq<T>, i: nat)
    requires i <= |s|
    ensures s[..i] + s[i..] == s
  {
  }

  lemma FirstOfConcat<T>(a: seq<T>, b: seq<T>)
    requires a != []
    ensures (a + b)[0] == a[0] && (a + b)[1..] == a[1..] + b
  {
  }

  /** A prefix and the piece that follows it. */
  lemma PrefixGrows<T>(s: seq<T>, i: nat, j: nat)
    requires i <= j <= |s|
    ensures s[..i] + s[i..j] == s[..j]
  {
  }

  function Zeros(n: nat): (s: seq<byte>)
    ensures |s| == n
  {
    seq(n, _ => 0)
  }

  /** The k low-order bytes of n, least significant first: what `write(fd, &n, k)` stores. */
  function LE(n: nat, k: nat): (s: seq<byte>)
    ensures |s| == k
  {
    if k == 0 then [] else [n % 256] + LE(n / 256, k - 1)
  }

  /** Byte i has the weight 256^i. */
  lemma {:induction false} LEDigit(n: nat, k: nat, i: nat)
    requires i < k
    ensures LE(n, k)[i] == n / Pow256(i) % 256
  {
    if i > 0 {
      LEDigit(n / 256, k - 1, i - 1);
      DivAgain(n, Pow256(i - 1));
    }
  }

  lemma DivAgain(n: nat, p: nat)
    requires p > 0
    ensures n / 256 / p == n / (256 * p)
  {
    var q, r := n / 256 / p, n / 256 % p;
    assert n / 256 == p * q + r;
    assert n == (256 * p) * q + (256 * r + n % 256);
    QuotientIs(n, 256 * p, q, 256 * r + n % 256);
  }

  /** The integer stored in s: what `read(fd, &n, |s|)` loads. */
  function FromLE(s: seq<byte>): (n: nat)
    ensures n < Pow256(|s|)
  {
    if s == [] then 0 else s[0] + 256 * FromLE(s[1..])
  }

  lemma {:induction false} FromLEofLE(n: nat, k: nat)
    requires n < Pow256(k)
    ensures FromLE(LE(n, k)) == n
  {
    if k > 0 {
      assert LE(n, k)[1..] == LE(n / 256, k - 1);
      FromLEofLE(n / 256, k - 1);
    }
  }

  lemma Pow256Values()
    ensures Pow256(4) == 0x1_0000_0000
    ensures Pow256(8) == U64
  {
    assert Pow256(2) == 0x1_0000;
    assert Pow256(4) == 256 * (256 * Pow256(2));
    assert Pow256(6) == 256 * (256 * Pow256(4));
  }

  /** The value of `1 << (7 - bitIndex)`: position 0 is the most significant bit. */
  function Mask(bitIndex: int): bv8
    requires 0 <= bitIndex <= 7
  {
    match bitIndex
    case 0 => 0x80
    case 1 => 0x40
    case 2 => 0x20
    case 3 => 0x10
    case 4 => 0x08
    case 5 => 0x04
    case 6 => 0x02
    case _ => 0x01
  }

  lemma MaskIsShift(bitIndex: int)
    requires 0 <= bitIndex <= 7
    ensures Mask(bitIndex) == (1 as bv8) << (7 - bitIndex)
  {
    if bitIndex < 4 {
      if bitIndex == 0 {} else if bitIndex == 1 {} else if bitIndex == 2 {} else {}
    } else {
      if bitIndex == 4 {} else if bitIndex == 5 {} else if bitIndex == 6 {} else {}
    }
  }

  function Bits(uc: byte): bv8 {
    uc as bv8
  }

  function FromBits(b: bv8): (uc: byte)
    ensures Bits(uc) == b
  {
    b as int
  }

  function SetBit(uc: byte, bitIndex: int, setBit: bool): byte
  {
    if bitIndex < 0 || bitIndex > 7 then 0
    else if setBit then FromBits(Bits(uc) | Mask(bitIndex))
    else FromBits(Bits(uc) & !Mask(bitIndex))
  }

  function GetBit(uc: byte, bitIndex: int): int
  {
    if bitIndex < 0 || bitIndex > 7 then -1
    else if Bits(uc) & Mask(bitIndex) != 0 then 1 else 0
  }

  lemma MaskIsOneBit(i: int, j: int)
    requires 0 <= i < 8 && 0 <= j < 8
    ensures OneBit(Mask(i)) && OneBit(Mask(j)) && (Mask(i) == Mask(j) <==> i == j)
  {
  }

  lemma SetThenGet(uc: byte, i: int, b: bool, j: int)
    requires 0 <= i < 8 && 0 <= j < 8
    ensures GetBit(SetBit(uc, i, b), j) == if i == j then (if b then 1 else 0) else GetBit(uc, j)
  {
    MaskIsOneBit(i, j);
    if b {
      OrMask(Bits(uc), Mask(i), Mask(j));
    } else {
      AndNotMask(Bits(uc), Mask(i), Mask(j));
    }
  }

  predicate OneBit(m: bv8) {
    m == 0x80 || m == 0x40 || m == 0x20 || m == 0x10 || m == 8 || m == 4 || m == 2 || m == 1
  }

  lemma OrMask(uc: bv8, mi: bv8, mj: bv8)
    requires OneBit(mi) && OneBit(mj)
    ensures (uc | mi) & mj != 0 <==> mi == mj || uc & mj != 0
  {
  }

  lemma AndNotMask(uc: bv8, mi: bv8, mj: bv8)
    requires OneBit(mi) && OneBit(mj)
    ensures (uc & !mi) & mj != 0 <==> mi != mj && uc & mj != 0
  {
  }

  // ---------- exclusive or ----------

  /** Bitwise exclusive or of two n-bit numbers. */
  function XorBits(a: nat, b: nat, n: nat): (r: nat)
    ensures r < Pow2(n)
  {
    if n == 0 then 0 else (a + b) % 2 + 2 * XorBits(a / 2, b / 2, n - 1)
  }

  /** Bit i of the result is set exactly when it differs in the two numbers. */
  lemma {:induction false} XorBitAt(a: nat, b: nat, n: nat, i: nat)
    requires i < n
    ensures Bit(XorBits(a, b, n), i) == if Bit(a, i) == Bit(b, i) then 0 else 1
  {
    XorHalves(a, b, n, a / 2, b / 2);
    if i == 0 {
      LowBit(a);
      LowBit(b);
      LowBit(XorBits(a, b, n));
    } else {
      XorBitAt(a / 2, b / 2, n - 1, i - 1);
      HalfThenShift(a, i);
      HalfThenShift(b, i);
      HalfThenShift(XorBits(a, b, n), i);
    }
  }

  function Bit(n: nat, i: nat): nat {
    n / Pow2(i) % 2
  }

  lemma LowBit(n: nat)
    ensures Bit(n, 0) == n % 2
  {
  }

  lemma HalfThenShift(a: nat, i: nat)
    requires i > 0
    ensures Bit(a, i) == Bit(a / 2, i - 1)
  {
    DivTwice(a, Pow2(i - 1));
  }

  lemma DivTwice(a: nat, p: nat)
    requires p > 0
    ensures a / (2 * p) == a / 2 / p
  {
    var q, r := a / 2 / p, a / 2 % p;
    assert a / 2 == p * q + r;
    assert a == (2 * p) * q + (2 * r + a % 2);
    QuotientIs(a, 2 * p, q, 2 * r + a % 2);
  }

  lemma QuotientIs(a: nat, p: nat, q: nat, r: nat)
    requires p > 0 && a == p * q + r && r < p
    ensures a / p == q
  {
    var d := a / p;
    assert a == p * d + a % p;
    if d < q { assert p * (d + 1) <= p * q by { MulMono(p, d + 1, q); } }
    if q < d { assert p * (q + 1) <= p * d by { MulMono(p, q + 1, d); } }
  }

  lemma MulMono(p: nat, a: nat, b: nat)
    requires a <= b
    ensures p * a <= p * b
  {
  }

  lemma XorHalves(a: nat, b: nat, n: nat, halfA: nat, halfB: nat)
    requires n > 0 && halfA == a / 2 && halfB == b / 2
    ensures XorBits(a, b, n) / 2 == XorBits(halfA, halfB, n - 1) && XorBits(a, b, n) % 2 == (a + b) % 2
  {
  }

  lemma SameHalves(a: nat, b: nat, x: nat, y: nat)
    requires y / 2 == a / 2 && x % 2 == (a + b) % 2 && y % 2 == (x + b) % 2
    ensures y == a
  {
  }

  lemma {:induction false} XorBitsTwice(a: nat, b: nat, n: nat)
    requires a < Pow2(n)
    ensures XorBits(XorBits(a, b, n), b, n) == a
  {
    if n > 0 {
      var x, halfB := XorBits(a, b, n), b / 2;
      var halfX := XorBits(a / 2, halfB, n - 1);
      XorHalves(a, b, n, a / 2, halfB);
      XorHalves(x, b, n, halfX, halfB);
      XorBitsTwice(a / 2, halfB, n - 1);
      SameHalves(a, b, x, XorBits(x, b, n));
    }
  }

  function XorByte(a: byte, b: byte): byte {
    assert Pow2(8) == 256 by { assert Pow2(4) == 16; }
    XorBits(a, b, 8)
  }

  lemma XorByteTwice(a: byte, b: byte)
    ensures XorByte(XorByte(a, b), b) == a
  {
    assert Pow2(8) == 256 by { assert Pow2(4) == 16; }
    XorBitsTwice(a, b, 8);
  }

  function Xor(a: seq<byte>, b: seq<byte>): (r: seq<byte>)
    requires |a| == |b|
    ensures |r| == |a|
  {
    seq(|a|, i requires 0 <= i < |a| => XorByte(a[i], b[i]))
  }

  lemma XorZeros(a: seq<byte>)
    ensures Xor(a, Zeros(|a|)) == a
  {
    forall i | 0 <= i < |a| ensures Xor(a, Zeros(|a|))[i] == a[i] { XorByteZero(a[i]); }
  }

  lemma {:induction false} XorBitsZero(a: nat, n: nat)
    requires a < Pow2(n)
    ensures XorBits(a, 0, n) == a
  {
    if n > 0 { XorBitsZero(a / 2, n - 1); }
  }

  lemma XorByteZero(a: byte)
    ensures XorByte(a, 0) == a
  {
    assert Pow2(8) == 256 by { assert Pow2(4) == 16; }
    XorBitsZero(a, 8);
  }

  lemma XorTwice(a: seq<byte>, b: seq<byte>)
    requires |a| == |b|
    ensures Xor(Xor(a, b), b) == a
  {
    forall i | 0 <= i < |a| ensures Xor(Xor(a, b), b)[i] == a[i] {
      XorByteTwice(a[i], b[i]);
    }
  }

  // ---------- bytes at an offset of a file ----------

  predicate At(file: seq<byte>, at: nat, s: seq<byte>) {
    at + |s| <= |file| && file[at..at + |s|] == s
  }

  lemma AtIndex(file: seq<byte>, at: nat, s: seq<byte>, i: nat)
    requires At(file, at, s) && i < |s|
    ensures file[at + i] == s[i]
  {
    assert file[at..at + |s|][i] == file[at + i];
  }

  /** Consecutive parts of a stored sequence sit at consecutive offsets. */
  lemma AtSplit(file: seq<byte>, at: nat, a: seq<byte>, b: seq<byte>)
    requires At(file, at, a + b)
    ensures At(file, at, a) && At(file, at + |a|, b)
  {
    var s := file[at..at + |a + b|];
    assert s[..|a|] == file[at..at + |a|] && s[|a|..] == file[at + |a|..at + |a| + |b|];
    assert s[..|a|] == a && s[|a|..] == b;
  }
}
