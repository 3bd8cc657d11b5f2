// frame.hpp: payload masking byte by byte, and the word-wise streaming forms that must agree with it.
//
// size_t is 64 bits wide and stored least significant byte first, as on the x86-64 server.
module Masking {
  import opened Bytes

  // ---------- the simple form: section 5.3 of RFC 6455 ----------

  type Key = k: seq<byte> | |k| == 4 witness [0, 0, 0, 0]

  /** Entry i of kb repeated for ever: kb[i % |kb|]. */
  function Cycle(kb: seq<byte>, i: nat): byte
    requires kb != []
  {
    if i < |kb| then kb[i] else Cycle(kb, i - |kb|)
  }

  function ByteMask(s: seq<byte>, key: Key, offset: nat): (r: seq<byte>)
    ensures |r| == |s|
  {
    seq(|s|, i requires 0 <= i < |s| => XorByte(s[i], Cycle(key, offset + i)))
  }

  /** Masking is its own inverse. */
  lemma MaskTwice(s: seq<byte>, key: Key, offset: nat)
    ensures ByteMask(ByteMask(s, key, offset), key, offset) == s
  {
    forall i | 0 <= i < |s| ensures ByteMask(ByteMask(s, key, offset), key, offset)[i] == s[i] {
      XorByteTwice(s[i], Cycle(key, offset + i));
    }
  }

  lemma MaskConcat(a: seq<byte>, b: seq<byte>, key: Key, offset: nat)
    ensures ByteMask(a + b, key, offset) == ByteMask(a, key, offset) + ByteMask(b, key, offset + |a|)
  {
    var m := ByteMask(a, key, offset) + ByteMask(b, key, offset + |a|);
    forall i | 0 <= i < |a + b| ensures ByteMask(a + b, key, offset)[i] == m[i] {
      if i >= |a| { assert offset + |a| + (i - |a|) == offset + i; }
    }
  }

  lemma {:induction false} CycleSkip(kb: seq<byte>, i: nat, q: nat, j: nat)
    requires kb != [] && j == i + |kb| * q
    ensures Cycle(kb, j) == Cycle(kb, i)
    decreases q
  {
    if q > 0 {
      assert j - |kb| == i + |kb| * (q - 1);
      assert |kb| * (q - 1) >= 0;
      CycleSkip(kb, i, q - 1, j - |kb|);
    }
  }

  lemma CycleMod(key: Key, i: nat)
    ensures Cycle(key, i) == key[i % 4]
  {
    CycleSkip(key, i % 4, i / 4, i);
  }

  // ---------- machine words ----------

  lemma {:induction false} LEofFromLE(s: seq<byte>)
    ensures LE(FromLE(s), |s|) == s
  {
    if s != [] {
      LEofFromLE(s[1..]);
      assert FromLE(s) % 256 == s[0] && FromLE(s) / 256 == FromLE(s[1..]);
      assert s == [s[0]] + s[1..];
    }
  }

  lemma Assoc(a: nat, b: nat, c: nat)
    ensures a * (b * c) == (a * b) * c
  {
  }

  lemma {:induction false} Pow256Sum(a: nat, b: nat)
    ensures Pow256(a + b) == Pow256(a) * Pow256(b)
  {
    if a > 0 {
      Pow256Sum(a - 1, b);
      Assoc(256, Pow256(a - 1), Pow256(b));
    }
  }

  lemma {:induction false} FromLEConcat(a: seq<byte>, b: seq<byte>)
    ensures FromLE(a + b) == FromLE(a) + Pow256(|a|) * FromLE(b)
    decreases |a|
  {
    if a == [] {
      assert a + b == b;
    } else {
      assert (a + b)[1..] == a[1..] + b;
      FromLEConcat(a[1..], b);
      Assoc(256, Pow256(|a| - 1), FromLE(b));
    }
  }

  /** uint32 key.i twice in one word. */
  function PrepareMaskingKey(key: Key): nat {
    FromLE(key) * 0x1_0000_0000 + FromLE(key)
  }

  lemma PreparedBytes(key: Key)
    ensures PrepareMaskingKey(key) == FromLE(key + key) && LE(PrepareMaskingKey(key), 8) == key + key
  {
    Pow256Values();
    FromLEConcat(key, key);
    LEofFromLE(key + key);
  }

  /** `(k >> 8 * offset) | (k << 8 * (8 - offset))`: the two parts have no bits in common. */
  function CircShift(k: nat, offset: nat): nat
    requires offset < 8
  {
    if offset == 0 then k else ShiftRight(k, Pow256(offset)) + ShiftLeft(k, Pow256(8 - offset), Pow256(8))
  }

  function ShiftRight(k: nat, p: nat): nat
    requires p > 0
  {
    k / p
  }

  function ShiftLeft(k: nat, p: nat, m: nat): nat
    requires m > 0
  {
    k * p % m
  }

  lemma Distribute(x: nat, y: nat, p: nat, q: nat)
    requires x < p && 0 < q
    ensures (x + p * y) * q == x * q + (p * q) * y && x * q < p * q
  {
  }

  lemma RotateArith(x: nat, y: nat, p: nat, q: nat)
    requires x < p && y < q
    ensures (x + p * y) / p == y
    ensures (x + p * y) * q % (p * q) == x * q
  {
    Multiple(x, y, p);
    Distribute(x, y, p, q);
    Multiple(x * q, y, p * q);
  }

  lemma OneMore(p: nat, a: nat, b: nat)
    requires a < b
    ensures p * b >= p * a + p
  {
    assert p * b == p * a + p * (b - a);
    assert p * (b - a) == p + p * (b - a - 1);
  }

  /** Quotient and remainder are unique. */
  lemma Multiple(x: nat, y: nat, p: nat)
    requires x < p
    ensures (x + p * y) % p == x && (x + p * y) / p == y
  {
    var n := x + p * y;
    var q, r := n / p, n % p;
    assert n == p * q + r;
    if y < q { OneMore(p, y, q); }
    if q < y { OneMore(p, q, y); }
  }

  lemma Rotated(x: nat, y: nat, k: nat, p: nat, q: nat, m: nat)
    requires x < p && y < q && m == p * q && k == x + p * y
    ensures ShiftRight(k, p) + ShiftLeft(k, q, m) == y + q * x
  {
    RotateArith(x, y, p, q);
  }

  /** Shifting the word is rotating its bytes. */
  lemma ShiftRotates(w: seq<byte>, offset: nat)
    requires |w| == 8 && offset < 8
    ensures CircShift(FromLE(w), offset) == FromLE(w[offset..] + w[..offset])
  {
    if offset == 0 {
      assert w[0..] + w[..0] == w;
    } else {
      var a, b := w[..offset], w[offset..];
      SplitAt(w, offset);
      FromLEConcat(a, b);
      FromLEConcat(b, a);
      Pow256Sum(offset, 8 - offset);
      Rotated(FromLE(a), FromLE(b), FromLE(w), Pow256(offset), Pow256(8 - offset), Pow256(8));
    }
  }

  // ---------- exclusive or of words ----------

  lemma XorUnfold(a: nat, b: nat, n: nat, halfA: nat, halfB: nat, k: nat, bit: nat)
    requires n == k + 1 && halfA == a / 2 && halfB == b / 2 && bit == (a + b) % 2
    ensures XorBits(a, b, n) == bit + 2 * XorBits(halfA, halfB, k)
  {
  }

  /** a + 2^n * high, seen from one bit up: p is 2^(n - 1). */
  lemma HalfSum(a: nat, p: nat, h: nat, pn: nat, sum: nat)
    requires pn == 2 * p && sum == a + pn * h
    ensures sum / 2 == a / 2 + p * h && sum % 2 == a % 2
  {
    var ph := p * h;
    assert pn * h == 2 * ph;
  }

  lemma SameParity(a: nat, b: nat, c: nat, d: nat)
    requires a % 2 == c % 2 && b % 2 == d % 2
    ensures (a + b) % 2 == (c + d) % 2
  {
  }

  lemma XorLowSum(bit: nat, low: nat, p: nat, q: nat, high: nat)
    requires q == 2 * p
    ensures bit + 2 * (low + p * high) == (bit + 2 * low) + q * high
  {
    Assoc(2, p, high);
  }

  lemma XorLowStep(a: nat, b: nat, n: nat, low: nat, p: nat, q: nat, top: nat, k: nat, sum: nat, sum': nat)
    requires n > 0 && k > 0 && sum % 2 == a % 2 && sum' % 2 == b % 2 && q == 2 * p
    requires low == XorBits(a / 2, b / 2, n - 1)
    requires XorBits(sum / 2, sum' / 2, k - 1) == low + p * top
    ensures XorBits(sum, sum', k) == XorBits(a, b, n) + q * top
  {
    var bit := (a + b) % 2;
    SameParity(sum, sum', a, b);
    XorUnfold(sum, sum', k, sum / 2, sum' / 2, k - 1, bit);
    XorUnfold(a, b, n, a / 2, b / 2, n - 1, bit);
    XorLowSum(bit, low, p, q, top);
  }

  /** Low and high digits do not influence each other. */
  lemma {:induction false} XorLow(a: nat, b: nat, high: nat, high': nat, n: nat, m: nat, sum: nat, sum': nat)
    requires a < Pow2(n) && b < Pow2(n) && sum == a + Pow2(n) * high && sum' == b + Pow2(n) * high'
    ensures XorBits(sum, sum', n + m) == XorBits(a, b, n) + Pow2(n) * XorBits(high, high', m)
    decreases n
  {
    if n > 0 {
      var p, half, half' := Pow2(n - 1), sum / 2, sum' / 2;
      HalfSum(a, p, high, Pow2(n), sum);
      HalfSum(b, p, high', Pow2(n), sum');
      XorLow(a / 2, b / 2, high, high', n - 1, m, half, half');
      XorLowStep(a, b, n, XorBits(a / 2, b / 2, n - 1), p, Pow2(n), XorBits(high, high', m), n + m, sum, sum');
    }
  }

  /** Exclusive or of two words is exclusive or of their bytes. */
  lemma {:induction false} XorWords(x: seq<byte>, y: seq<byte>)
    requires |x| == |y|
    ensures XorBits(FromLE(x), FromLE(y), 8 * |x|) == FromLE(Xor(x, y))
    decreases |x|
  {
    if x != [] {
      assert Pow2(8) == 256 by { assert Pow2(4) == 16; }
      XorLow(x[0], y[0], FromLE(x[1..]), FromLE(y[1..]), 8, 8 * |x[1..]|, FromLE(x), FromLE(y));
      XorWords(x[1..], y[1..]);
      assert Xor(x, y)[1..] == Xor(x[1..], y[1..]);
    }
  }

  function XorWord(a: nat, b: nat): (r: nat)
    ensures r < Pow2(64)
  {
    XorBits(a, b, 64)
  }

  lemma XorWordBytes(x: seq<byte>, k: nat)
    requires |x| == 8 && k < U64
    ensures LE(XorWord(FromLE(x), k), 8) == Xor(x, LE(k, 8))
  {
    Pow256Values();
    FromLEofLE(k, 8);
    XorWords(x, LE(k, 8));
    LEofFromLE(Xor(x, LE(k, 8)));
  }

  // ---------- the streaming forms as functions ----------

  function XorCycle(s: seq<byte>, kb: seq<byte>): (r: seq<byte>)
    requires kb != []
    ensures |r| == |s|
  {
    seq(|s|, i requires 0 <= i < |s| => XorByte(s[i], Cycle(kb, i)))
  }

  /** The key as seen `n` bytes further on. */
  function Rotate(key: Key, n: nat): Key {
    [Cycle(key, n), Cycle(key, n + 1), Cycle(key, n + 2), Cycle(key, n + 3)]
  }

  lemma {:induction false} CycleRotate(key: Key, n: nat, i: nat)
    ensures Cycle(Rotate(key, n), i) == Cycle(key, n + i)
  {
    if i >= 4 { CycleRotate(key, n, i - 4); }
  }

  lemma RotateMasks(s: seq<byte>, key: Key, n: nat)
    ensures ByteMask(s, Rotate(key, n), 0) == ByteMask(s, key, n)
  {
    forall i | 0 <= i < |s| ensures ByteMask(s, Rotate(key, n), 0)[i] == ByteMask(s, key, n)[i] {
      CycleRotate(key, n, i);
    }
  }

  lemma RotateTwice(key: Key, n: nat, m: nat)
    ensures Rotate(Rotate(key, n), m) == Rotate(key, n + m)
  {
    CycleRotate(key, n, m);
    CycleRotate(key, n, m + 1);
    CycleRotate(key, n, m + 2);
    CycleRotate(key, n, m + 3);
  }

  /** A prepared key is a 4-byte key written twice, in memory order. */
  ghost predicate Prepared(k: nat, key: Key) {
    k == FromLE(key + key)
  }

  lemma PreparedWord(k: nat, key: Key)
    requires Prepared(k, key)
    ensures k < U64 && LE(k, 8) == key + key
  {
    Pow256Values();
    LEofFromLE(key + key);
  }

  /** Shifting keeps the period-4 shape, and advances the key. */
  lemma ShiftKeepsShape(k: nat, key: Key, offset: nat)
    requires Prepared(k, key) && offset < 8
    ensures Prepared(CircShift(k, offset), Rotate(key, offset))
  {
    ShiftRotates(key + key, offset);
    DoubledRotates(key, offset);
  }

  lemma {:induction false} CycleDoubled(key: Key, i: nat)
    ensures Cycle(key + key, i) == Cycle(key, i)
  {
    if i >= 8 {
      CycleDoubled(key, i - 8);
      CycleSkip(key, i - 8, 2, i);
    }
  }

  lemma DoubledRotates(key: Key, offset: nat)
    requires offset < 8
    ensures (key + key)[offset..] + (key + key)[..offset] == Rotate(key, offset) + Rotate(key, offset)
  {
    var d := key + key;
    forall j | 0 <= j < 8
      ensures (d[offset..] + d[..offset])[j] == (Rotate(key, offset) + Rotate(key, offset))[j]
    {
      CycleDoubled(key, offset + j);
      assert (d[offset..] + d[..offset])[j] == Cycle(d, offset + j);
    }
  }

  lemma CycleIsMask(s: seq<byte>, key: Key)
    ensures XorCycle(s, key + key) == ByteMask(s, key, 0) && XorCycle(s, key) == ByteMask(s, key, 0)
  {
    forall i | 0 <= i < |s| ensures XorCycle(s, key + key)[i] == ByteMask(s, key, 0)[i] {
      CycleDoubled(key, i);
    }
  }

  // ---------- the methods ----------

  method LoadWord(input: array<byte>, at: nat) returns (w: nat)
    requires at + 8 <= input.Length
    ensures w == FromLE(input[at..at + 8])
  {
    w := FromLE(input[at..at + 8]);
  }

  method StoreWord(output: array<byte>, at: nat, w: nat)
    requires at + 8 <= output.Length
    modifies output
    ensures forall j :: 0 <= j < output.Length ==>
      output[j] == if at <= j < at + 8 then LE(w, 8)[j - at] else old(output[j])
  {
    var bytes := LE(w, 8);
    for i := 0 to 8
      invariant forall j :: 0 <= j < output.Length ==>
        output[j] == if at <= j < at + i then bytes[j - at] else old(output[j])
    {
      output[at + i] := bytes[i];
    }
  }

  method ByteMaskBuffer(input: array<byte>, output: array<byte>, length: nat, key: Key, keyOffset: nat)
    requires length <= input.Length && length <= output.Length
    modifies output
    ensures output[..length] == ByteMask(old(input[..length]), key, keyOffset)
    ensures output[length..] == old(output[length..])
  {
    var keyIndex := keyOffset % 4;
    ghost var rounds := keyOffset / 4;
    for i := 0 to length
      invariant keyOffset + i == keyIndex + 4 * rounds && 0 <= keyIndex < 4
      invariant forall j :: 0 <= j < i ==> output[j] == XorByte(old(input[j]), Cycle(key, keyOffset + j))
      invariant forall j :: i <= j < input.Length ==> input[j] == old(input[j])
      invariant output[length..] == old(output[length..])
    {
      CycleSkip(key, keyIndex, rounds, keyOffset + i);
      output[i] := XorByte(input[i], key[keyIndex]);
      if keyIndex + 1 == 4 { rounds := rounds + 1; }
      keyIndex := (keyIndex + 1) % 4;
    }
  }

  /** One word against the key word; input and output may be the same buffer. */
  method MaskWord(input: array<byte>, output: array<byte>, at: nat, key: nat, ghost kb: seq<byte>)
    requires at + 8 <= input.Length && at + 8 <= output.Length && key < U64 && kb == LE(key, 8)
    modifies output
    ensures forall j :: at <= j < at + 8 ==> output[j] == XorByte(old(input[j]), kb[j - at])
    ensures forall j :: 0 <= j < output.Length && !(at <= j < at + 8) ==> output[j] == old(output[j])
  {
    ghost var x := input[at..at + 8];
    var w := LoadWord(input, at);
    assert LE(XorWord(w, key), 8) == Xor(x, kb) by { XorWordBytes(x, key); }
    StoreWord(output, at, XorWord(w, key));
    forall j | at <= j < at + 8 ensures output[j] == XorByte(old(input[j]), kb[j - at]) {
      assert output[j] == LE(XorWord(w, key), 8)[j - at];
      assert x[j - at] == old(input[j]);
    }
  }

  lemma WordIndex(kb: seq<byte>, i: nat, j: nat)
    requires |kb| == 8 && 8 * i <= j < 8 * i + 8
    ensures Cycle(kb, j) == kb[j - 8 * i]
  {
    CycleSkip(kb, j - 8 * i, i, j);
  }

  method MaskWords(input: array<byte>, output: array<byte>, n: nat, key: nat)
    requires 8 * n <= input.Length && 8 * n <= output.Length && key < U64
    modifies output
    ensures forall j :: 0 <= j < 8 * n ==> output[j] == XorByte(old(input[j]), Cycle(LE(key, 8), j))
    ensures forall j :: 8 * n <= j < output.Length ==> output[j] == old(output[j])
  {
    ghost var kb := LE(key, 8);
    for i := 0 to n
      invariant forall j :: 0 <= j < 8 * i ==> output[j] == XorByte(old(input[j]), Cycle(kb, j))
      invariant forall j :: 8 * i <= j < input.Length ==> input[j] == old(input[j])
      invariant forall j :: 8 * i <= j < output.Length ==> output[j] == old(output[j])
    {
      forall j | 8 * i <= j < 8 * i + 8 ensures Cycle(kb, j) == kb[j - 8 * i] { WordIndex(kb, i, j); }
      MaskWord(input, output, 8 * i, key, kb);
    }
  }

  method WordMaskExact(input: array<byte>, output: array<byte>, length: nat, key: Key)
    requires length <= input.Length && length <= output.Length
    modifies output
    ensures output[..length] == ByteMask(old(input[..length]), key, 0)
    ensures output[length..] == old(output[length..])
  {
    PreparedBytes(key);
    PreparedWord(PrepareMaskingKey(key), key);
    CycleIsMask(input[..length], key);
    var n := length / 8;
    MaskWords(input, output, n, PrepareMaskingKey(key));
    MaskTail(input, output, 8 * n, length, key);
    forall j | 0 <= j < length ensures Cycle(key + key, j) == Cycle(key, j) { CycleDoubled(key, j); }
  }

  /** The bytes after the last whole word, against the key bytes by position. */
  method MaskTail(input: array<byte>, output: array<byte>, start: nat, length: nat, key: Key)
    requires start <= length <= input.Length && length <= output.Length
    modifies output
    ensures forall j :: start <= j < length ==> output[j] == XorByte(old(input[j]), Cycle(key, j))
    ensures forall j :: 0 <= j < output.Length && !(start <= j < length) ==> output[j] == old(output[j])
  {
    for i := start to length
      invariant forall j :: start <= j < i ==> output[j] == XorByte(old(input[j]), Cycle(key, j))
      invariant forall j :: i <= j < input.Length ==> input[j] == old(input[j])
      invariant forall j :: 0 <= j < output.Length && !(start <= j < i) ==> output[j] == old(output[j])
    {
      CycleMod(key, i);
      output[i] := XorByte(input[i], key[i % 4]);
    }
  }

  method WordMaskCirc(input: array<byte>, output: array<byte>, length: nat, preparedKey: nat) returns (next: nat)
    requires length <= input.Length && length <= output.Length && preparedKey < U64
    modifies output
    ensures output[..length] == XorCycle(old(input[..length]), LE(preparedKey, 8))
    ensures output[length..] == old(output[length..])
    ensures next == CircShift(preparedKey, length % 8)
  {
    var n := length / 8;
    var l := length - 8 * n;
    MaskWords(input, output, n, preparedKey);
    MaskPartialWord(input, output, n, l, LE(preparedKey, 8));
    next := CircShift(preparedKey, l);
  }

  /** The l bytes of the word that is not whole, against the first bytes of the key word. */
  method MaskPartialWord(input: array<byte>, output: array<byte>, n: nat, l: nat, byteKey: seq<byte>)
    requires 8 * n + l <= input.Length && 8 * n + l <= output.Length && l < 8 && |byteKey| == 8
    modifies output
    ensures forall j :: 8 * n <= j < 8 * n + l ==> output[j] == XorByte(old(input[j]), Cycle(byteKey, j))
    ensures forall j :: 0 <= j < output.Length && !(8 * n <= j < 8 * n + l) ==> output[j] == old(output[j])
  {
    var start := 8 * n;
    for i := 0 to l
      invariant forall j :: start <= j < start + i ==> output[j] == XorByte(old(input[j]), Cycle(byteKey, j))
      invariant forall j :: start + i <= j < input.Length ==> input[j] == old(input[j])
      invariant forall j :: 0 <= j < output.Length && !(start <= j < start + i) ==> output[j] == old(output[j])
    {
      WordIndex(byteKey, n, start + i);
      output[start + i] := XorByte(input[start + i], byteKey[i]);
    }
  }

  method ByteMaskCirc(input: array<byte>, output: array<byte>, length: nat, preparedKey: nat) returns (next: nat)
    requires length <= input.Length && length <= output.Length
    modifies output
    ensures output[..length] == XorCycle(old(input[..length]), LE(preparedKey % 0x1_0000_0000, 4))
    ensures output[length..] == old(output[length..])
    ensures next == CircShift(preparedKey, length % 4)
  {
    var key: Key := LE(preparedKey % 0x1_0000_0000, 4);
    for i := 0 to length
      invariant forall j :: 0 <= j < i ==> output[j] == XorByte(old(input[j]), Cycle(key, j))
      invariant forall j :: i <= j < input.Length ==> input[j] == old(input[j])
      invariant output[length..] == old(output[length..])
    {
      CycleMod(key, i);
      output[i] := XorByte(input[i], key[i % 4]);
    }
    next := CircShift(preparedKey, length % 4);
  }

  // ---------- streaming refines the simple form ----------

  /** A piece of a payload, and the form that masks it. */
  datatype Piece = Piece(bytes: seq<byte>, wordwise: bool)

  function Whole(ps: seq<Piece>): seq<byte> {
    if ps == [] then [] else ps[0].bytes + Whole(ps[1..])
  }

  /** What word_mask_circ or byte_mask_circ writes for a piece, and the key it returns. */
  function MaskPiece(p: Piece, k: nat): (seq<byte>, nat) {
    if p.wordwise then (XorCycle(p.bytes, LE(k, 8)), CircShift(k, |p.bytes| % 8))
    else (XorCycle(p.bytes, LE(k % 0x1_0000_0000, 4)), CircShift(k, |p.bytes| % 4))
  }

  function MaskStream(ps: seq<Piece>, k: nat): seq<byte> {
    if ps == [] then [] else var (out, next) := MaskPiece(ps[0], k); out + MaskStream(ps[1..], next)
  }

  lemma LowWord(k: nat, key: Key)
    requires Prepared(k, key)
    ensures LE(k % 0x1_0000_0000, 4) == key
  {
    Pow256Values();
    FromLEConcat(key, key);
    Multiple(FromLE(key), FromLE(key), Pow256(4));
    LEofFromLE(key);
  }

  lemma RotateRounds(key: Key, n: nat, q: nat, m: nat)
    requires m == n + 4 * q
    ensures Rotate(key, n) == Rotate(key, m)
  {
    CycleSkip(key, n, q, m);
    CycleSkip(key, n + 1, q, m + 1);
    CycleSkip(key, n + 2, q, m + 2);
    CycleSkip(key, n + 3, q, m + 3);
  }

  lemma KeyMovesOn(k: nat, key: Key, l: nat)
    requires Prepared(k, key)
    ensures Prepared(CircShift(k, l % 8), Rotate(key, l)) && Prepared(CircShift(k, l % 4), Rotate(key, l))
  {
    ShiftKeepsShape(k, key, l % 8);
    RotateRounds(key, l % 8, 2 * (l / 8), l);
    ShiftKeepsShape(k, key, l % 4);
    RotateRounds(key, l % 4, l / 4, l);
  }

  /** One piece, word by word or byte by byte: masked like its place in the payload, and the key moved on. */
  lemma PieceMasked(p: Piece, k: nat, key: Key, n: nat, l: nat)
    requires Prepared(k, Rotate(key, n)) && l == |p.bytes|
    ensures MaskPiece(p, k).0 == ByteMask(p.bytes, key, n) && Prepared(MaskPiece(p, k).1, Rotate(key, n + l))
  {
    var key' := Rotate(key, n);
    CycleIsMask(p.bytes, key');
    RotateMasks(p.bytes, key, n);
    RotateTwice(key, n, l);
    KeyMovesOn(k, key', l);
    if p.wordwise { PreparedWord(k, key'); } else { LowWord(k, key'); }
  }

  /** A payload cut into pieces of any sizes, each masked by either form with the key the one before returned,
      comes out as if masked byte by byte in one go. */
  lemma {:induction false} StreamMasks(ps: seq<Piece>, k: nat, key: Key, n: nat)
    requires Prepared(k, Rotate(key, n))
    ensures MaskStream(ps, k) == ByteMask(Whole(ps), key, n)
    decreases |ps|
  {
    if ps != [] {
      PieceMasked(ps[0], k, key, n, |ps[0].bytes|);
      StreamMasks(ps[1..], MaskPiece(ps[0], k).1, key, n + |ps[0].bytes|);
      MaskConcat(ps[0].bytes, Whole(ps[1..]), key, n);
    }
  }

  /** From a freshly prepared key: byte i of the payload against byte i modulo 4 of the key. */
  lemma StreamFromStart(ps: seq<Piece>, key: Key)
    ensures MaskStream(ps, PrepareMaskingKey(key)) == ByteMask(Whole(ps), key, 0)
    ensures |MaskStream(ps, PrepareMaskingKey(key))| == |Whole(ps)|
    ensures forall i :: 0 <= i < |Whole(ps)| ==>
      MaskStream(ps, PrepareMaskingKey(key))[i] == XorByte(Whole(ps)[i], key[i % 4])
  {
    forall i | 0 <= i < |Whole(ps)| ensures ByteMask(Whole(ps), key, 0)[i] == XorByte(Whole(ps)[i], key[i % 4]) {
      CycleMod(key, i);
    }
    PreparedBytes(key);
    assert Rotate(key, 0) == key;
    StreamMasks(ps, PrepareMaskingKey(key), key, 0);
  }
}
