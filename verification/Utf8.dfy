// utf8_validator.hpp: the table-driven decoder against the grammar of section 4 of RFC 3629.
module Utf8 {
  import opened Bytes

  const U32: nat := 0x1_0000_0000
  const ACCEPT: nat := 0
  const REJECT: nat := 1

  type StateNo = n: nat | n < 9

  // ---------- the tables ----------

  /** The first 256 entries of utf8d: the character class of a byte. */
  function TypeOf(b: byte): (t: nat)
    ensures t < 12
  {
    if b < 0x80 then 0
    else if b < 0x90 then 1
    else if b < 0xA0 then 9
    else if b < 0xC0 then 7
    else if b < 0xC2 then 8
    else if b < 0xE0 then 2
    else if b == 0xE0 then 10
    else if b < 0xED then 3
    else if b == 0xED then 4
    else if b < 0xF0 then 3
    else if b == 0xF0 then 11
    else if b < 0xF4 then 6
    else if b == 0xF4 then 5
    else 8
  }

  /** The remaining entries, sixteen for each of the nine states. */
  function Row(state: nat): (r: seq<StateNo>)
    requires state < 9
    ensures |r| == 16
  {
    match state
    case 0 => [0, 1, 2, 3, 5, 8, 7, 1, 1, 1, 4, 6, 1, 1, 1, 1]
    case 1 => [1, 1, 1, 1, 1, 1, 1, 1, 1, 1, 1, 1, 1, 1, 1, 1]
    case 2 => [1, 0, 1, 1, 1, 1, 1, 0, 1, 0, 1, 1, 1, 1, 1, 1]
    case 3 => [1, 2, 1, 1, 1, 1, 1, 2, 1, 2, 1, 1, 1, 1, 1, 1]
    case 4 => [1, 1, 1, 1, 1, 1, 1, 2, 1, 1, 1, 1, 1, 1, 1, 1]
    case 5 => [1, 2, 1, 1, 1, 1, 1, 1, 1, 2, 1, 1, 1, 1, 1, 1]
    case 6 => [1, 1, 1, 1, 1, 1, 1, 3, 1, 3, 1, 1, 1, 1, 1, 1]
    case 7 => [1, 3, 1, 1, 1, 1, 1, 3, 1, 3, 1, 1, 1, 1, 1, 1]
    case _ => [1, 3, 1, 1, 1, 1, 1, 1, 1, 1, 1, 1, 1, 1, 1, 1]
  }

  function Next(state: nat, b: byte): (r: nat)
    requires state < 9
    ensures r < 9
  {
    Row(state)[TypeOf(b)]
  }

  /** 0xff >> type as a mask: the low 8 - type bits, none from 8 on. */
  function FirstBits(t: nat, b: byte): nat {
    if t >= 8 then 0
    else if t == 0 then b
    else if t == 1 then b % 128
    else if t == 2 then b % 64
    else if t == 3 then b % 32
    else if t == 4 then b % 16
    else if t == 5 then b % 8
    else if t == 6 then b % 4
    else b % 2
  }

  /** The code point register, 32 bits wide. */
  function NextPoint(state: nat, codep: nat, b: byte): nat {
    if state != ACCEPT then b % 64 + codep * 64 % U32 else FirstBits(TypeOf(b), b)
  }

  datatype Decoder = Decoder(state: nat, codep: nat)

  function Step(d: Decoder, b: byte): (r: Decoder)
    requires d.state < 9
    ensures r.state < 9
  {
    Decoder(Next(d.state, b), NextPoint(d.state, d.codep, b))
  }

  function Run(d: Decoder, s: seq<byte>): (r: Decoder)
    requires d.state < 9
    ensures r.state < 9
    decreases |s|
  {
    if s == [] then d else Run(Step(d, s[0]), s[1..])
  }

  // ---------- the grammar ----------

  predicate Tail(b: byte) {
    0x80 <= b <= 0xBF
  }

  predicate Pair(a: byte, b: byte) {
    0xC2 <= a <= 0xDF && Tail(b)
  }

  predicate Triple(a: byte, b: byte, c: byte) {
    || (a == 0xE0 && 0xA0 <= b <= 0xBF && Tail(c))
    || (0xE1 <= a <= 0xEC && Tail(b) && Tail(c))
    || (a == 0xED && 0x80 <= b <= 0x9F && Tail(c))
    || (0xEE <= a <= 0xEF && Tail(b) && Tail(c))
  }

  predicate Quad(a: byte, b: byte, c: byte, d: byte) {
    || (a == 0xF0 && 0x90 <= b <= 0xBF && Tail(c) && Tail(d))
    || (0xF1 <= a <= 0xF3 && Tail(b) && Tail(c) && Tail(d))
    || (a == 0xF4 && 0x80 <= b <= 0x8F && Tail(c) && Tail(d))
  }

  /** UTF8-octets of section 4 of RFC 3629. */
  predicate WellFormed(s: seq<byte>)
    decreases |s|
  {
    || s == []
    || (s[0] <= 0x7F && WellFormed(s[1..]))
    || (|s| >= 2 && Pair(s[0], s[1]) && WellFormed(s[2..]))
    || (|s| >= 3 && Triple(s[0], s[1], s[2]) && WellFormed(s[3..]))
    || (|s| >= 4 && Quad(s[0], s[1], s[2], s[3]) && WellFormed(s[4..]))
  }

  // ---------- the automaton accepts the grammar ----------

  /** What may still follow in each state for the whole to be well-formed. */
  predicate Rest(state: nat, s: seq<byte>)
    requires state < 9
  {
    if state == 0 then WellFormed(s)
    else if state == 1 then false
    else if state == 2 then |s| >= 1 && Tail(s[0]) && WellFormed(s[1..])
    else if state <= 5 then
      |s| >= 2 && Tail(s[1]) && WellFormed(s[2..])
      && (if state == 3 then Tail(s[0]) else if state == 4 then 0xA0 <= s[0] <= 0xBF else 0x80 <= s[0] <= 0x9F)
    else
      |s| >= 3 && Tail(s[1]) && Tail(s[2]) && WellFormed(s[3..])
      && (if state == 6 then 0x90 <= s[0] <= 0xBF else if state == 7 then Tail(s[0]) else 0x80 <= s[0] <= 0x8F)
  }

  /** The state after the first byte of a character. */
  function First(b: byte): nat {
    if b <= 0x7F then 0
    else if 0xC2 <= b <= 0xDF then 2
    else if b == 0xE0 then 4
    else if b == 0xED then 5
    else if 0xE1 <= b <= 0xEF then 3
    else if b == 0xF0 then 6
    else if 0xF1 <= b <= 0xF3 then 7
    else if b == 0xF4 then 8
    else 1
  }

  lemma FirstState(b: byte)
    ensures Next(0, b) == First(b)
  {
  }

  lemma FirstInGrammar(s: seq<byte>)
    requires s != []
    ensures WellFormed(s) <==> Rest(First(s[0]), s[1..])
  {
    var t := s[1..];
    if |s| >= 2 { assert t[0] == s[1] && t[1..] == s[2..]; }
    if |s| >= 3 { assert t[1] == s[2] && t[2..] == s[3..]; }
    if |s| >= 4 { assert t[2] == s[3] && t[3..] == s[4..]; }
  }

  lemma StepFromAccept(s: seq<byte>)
    requires s != []
    ensures WellFormed(s) <==> Rest(Next(0, s[0]), s[1..])
  {
    FirstState(s[0]);
    FirstInGrammar(s);
  }

  /** The state after a further byte of a character. */
  function Inside(state: nat, b: byte): nat {
    if state == 2 && Tail(b) then 0
    else if (state == 3 && Tail(b)) || (state == 4 && 0xA0 <= b <= 0xBF) || (state == 5 && 0x80 <= b <= 0x9F) then 2
    else if (state == 6 && 0x90 <= b <= 0xBF) || (state == 7 && Tail(b)) || (state == 8 && 0x80 <= b <= 0x8F) then 3
    else 1
  }

  lemma InsideState(state: nat, b: byte)
    requires 0 < state < 9
    ensures Next(state, b) == Inside(state, b)
  {
  }

  lemma InsideGrammar(state: nat, s: seq<byte>)
    requires 0 < state < 9 && s != []
    ensures Rest(state, s) <==> Rest(Inside(state, s[0]), s[1..])
  {
    var t := s[1..];
    if |s| >= 2 { assert t[0] == s[1] && t[1..] == s[2..]; }
    if |s| >= 3 { assert t[1] == s[2] && t[2..] == s[3..]; }
  }

  lemma StepInside(state: nat, s: seq<byte>)
    requires 0 < state < 9 && s != []
    ensures Rest(state, s) <==> Rest(Next(state, s[0]), s[1..])
  {
    InsideState(state, s[0]);
    InsideGrammar(state, s);
  }

  /** From every state, the automaton ends in the accepting state exactly on what the grammar still allows. */
  lemma {:induction false} AcceptsRest(d: Decoder, s: seq<byte>)
    requires d.state < 9
    ensures Run(d, s).state == ACCEPT <==> Rest(d.state, s)
    decreases |s|
  {
    if s != [] {
      if d.state == 0 { StepFromAccept(s); } else { StepInside(d.state, s); }
      AcceptsRest(Step(d, s[0]), s[1..]);
    }
  }

  lemma {:induction false} RejectAbsorbs(d: Decoder, s: seq<byte>)
    requires d.state == REJECT
    ensures Run(d, s).state == REJECT
    decreases |s|
  {
    if s != [] { RejectAbsorbs(Step(d, s[0]), s[1..]); }
  }

  /** Decoding in pieces agrees with decoding the whole. */
  lemma {:induction false} RunConcat(d: Decoder, a: seq<byte>, b: seq<byte>)
    requires d.state < 9
    ensures Run(d, a + b) == Run(Run(d, a), b)
    decreases |a|
  {
    if a == [] {
      assert a + b == b;
    } else {
      assert (a + b)[1..] == a[1..] + b;
      RunConcat(Step(d, a[0]), a[1..], b);
    }
  }

  // ---------- what well-formed strings mean ----------

  /** Code points that are not surrogates. */
  predicate Scalar(c: nat) {
    c < 0xD800 || 0xE000 <= c <= 0x10FFFF
  }

  /** The table of section 3 of RFC 3629. */
  function EncodeScalar(c: nat): (s: seq<byte>)
    requires Scalar(c)
    ensures |s| > 0
  {
    if c < 0x80 then [c]
    else if c < 0x800 then [0xC0 + c / 64, 0x80 + c % 64]
    else if c < 0x1_0000 then [0xE0 + c / 4096, 0x80 + c / 64 % 64, 0x80 + c % 64]
    else [0xF0 + c / 0x4_0000, 0x80 + c / 4096 % 64, 0x80 + c / 64 % 64, 0x80 + c % 64]
  }

  ghost predicate Scalars(cs: seq<nat>) {
    forall i :: 0 <= i < |cs| ==> Scalar(cs[i])
  }

  ghost function EncodeAll(cs: seq<nat>): seq<byte>
    requires Scalars(cs)
    decreases |cs|
  {
    if cs == [] then [] else EncodeScalar(cs[0]) + EncodeAll(cs[1..])
  }

  /** The registers at the moments the automaton is back in the accepting state. */
  function Points(d: Decoder, s: seq<byte>): seq<nat>
    requires d.state < 9
    decreases |s|
  {
    if s == [] then []
    else var n := Step(d, s[0]); (if n.state == ACCEPT then [n.codep] else []) + Points(n, s[1..])
  }

  lemma {:induction false} PointsConcat(d: Decoder, a: seq<byte>, b: seq<byte>)
    requires d.state < 9
    ensures Points(d, a + b) == Points(d, a) + Points(Run(d, a), b)
    decreases |a|
  {
    if a == [] {
      assert a + b == b;
    } else {
      var n := Step(d, a[0]);
      FirstOfConcat(a, b);
      PointsConcat(n, a[1..], b);
      Associative(if n.state == ACCEPT then [n.codep] else [], Points(n, a[1..]), Points(Run(n, a[1..]), b));
    }
  }

  /** One character: its last byte leads to the accepting state and to nothing before. */
  lemma Finish(d: Decoder, b: byte, c: nat)
    requires d.state < 9 && Step(d, b) == Decoder(0, c)
    ensures Run(d, [b]) == Decoder(0, c) && Points(d, [b]) == [c]
  {
    assert [b][1..] == [];
  }

  lemma OneAndTwo(a: byte, b: byte, c: byte)
    ensures [a] + [b, c] == [a, b, c]
  {
  }

  lemma GoOn(d: Decoder, b: byte, n: Decoder, rest: seq<byte>, c: nat)
    requires d.state < 9 && Step(d, b) == n && n.state != 0 && Run(n, rest) == Decoder(0, c) && Points(n, rest) == [c]
    ensures Run(d, [b] + rest) == Decoder(0, c) && Points(d, [b] + rest) == [c]
  {
    assert ([b] + rest)[1..] == rest;
  }

  /** A continuation byte 0x80 + x in a state that waits for one or two of them. */
  lemma TailStep(state: nat, codep: nat, x: nat)
    requires state in {2, 3} && x < 64 && codep < 0x400_0000
    ensures Step(Decoder(state, codep), 0x80 + x) == Decoder(if state == 2 then 0 else 2, codep * 64 + x)
  {
  }

  lemma SecondOfThree(state: nat, codep: nat, x: nat)
    requires state in {4, 5} && x < 64 && codep < 0x400_0000 && (if state == 4 then x >= 32 else x < 32)
    ensures Step(Decoder(state, codep), 0x80 + x) == Decoder(2, codep * 64 + x)
  {
  }

  lemma SecondOfFour(state: nat, codep: nat, x: nat)
    requires state in {6, 7, 8} && x < 64 && codep < 0x400_0000
    requires (state == 6 ==> x >= 16) && (state == 8 ==> x < 16)
    ensures Step(Decoder(state, codep), 0x80 + x) == Decoder(3, codep * 64 + x)
  {
  }

  lemma FirstOfThree(codep: nat, y: nat)
    requires y < 16
    ensures Step(Decoder(0, codep), 0xE0 + y) == Decoder(if y == 0 then 4 else if y == 13 then 5 else 3, y)
  {
  }

  lemma FirstOfFour(codep: nat, y: nat)
    requires y < 5
    ensures Step(Decoder(0, codep), 0xF0 + y) == Decoder(if y == 0 then 6 else if y == 4 then 8 else 7, y)
  {
  }

  lemma TwoBytes(c: nat, codep: nat)
    requires 0x80 <= c < 0x800
    ensures Run(Decoder(0, codep), EncodeScalar(c)) == Decoder(0, c)
    ensures Points(Decoder(0, codep), EncodeScalar(c)) == [c]
  {
    var y, x := c / 64, c % 64;
    assert Step(Decoder(0, codep), 0xC0 + y) == Decoder(2, y);
    TailStep(2, y, x);
    Finish(Decoder(2, y), 0x80 + x, c);
    GoOn(Decoder(0, codep), 0xC0 + y, Decoder(2, y), [0x80 + x], c);
  }

  lemma LastTwo(codep: nat, x: nat, z: nat)
    requires x < 64 && z < 64 && codep < 0x1_0000
    ensures var c, s := (codep * 64 + x) * 64 + z, [0x80 + x, 0x80 + z];
      Run(Decoder(3, codep), s) == Decoder(0, c) && Points(Decoder(3, codep), s) == [c]
  {
    var c := (codep * 64 + x) * 64 + z;
    TailStep(3, codep, x);
    TailStep(2, codep * 64 + x, z);
    Finish(Decoder(2, codep * 64 + x), 0x80 + z, c);
    GoOn(Decoder(3, codep), 0x80 + x, Decoder(2, codep * 64 + x), [0x80 + z], c);
  }

  lemma ThreeDigits(c: nat)
    requires Scalar(c) && 0x800 <= c < 0x1_0000
    ensures var y, x, z := c / 4096, c / 64 % 64, c % 64;
      y < 16 && c == (y * 64 + x) * 64 + z && (y == 0 ==> x >= 32) && (y == 13 ==> x < 32)
  {
    assert c / 4096 == c / 64 / 64;
  }

  lemma ThreeBytes(c: nat, codep: nat)
    requires Scalar(c) && 0x800 <= c < 0x1_0000
    ensures Run(Decoder(0, codep), EncodeScalar(c)) == Decoder(0, c)
    ensures Points(Decoder(0, codep), EncodeScalar(c)) == [c]
  {
    var y, x, z := c / 4096, c / 64 % 64, c % 64;
    ThreeDigits(c);
    FirstOfThree(codep, y);
    var n := Step(Decoder(0, codep), 0xE0 + y);
    if n.state == 3 {
      LastTwo(y, x, z);
    } else {
      SecondOfThree(n.state, y, x);
      TailStep(2, y * 64 + x, z);
      Finish(Decoder(2, y * 64 + x), 0x80 + z, c);
      GoOn(n, 0x80 + x, Decoder(2, y * 64 + x), [0x80 + z], c);
    }
    GoOn(Decoder(0, codep), 0xE0 + y, n, [0x80 + x, 0x80 + z], c);
  }

  lemma LastThree(state: nat, y: nat, w: nat, x: nat, z: nat, c: nat)
    requires state in {6, 7, 8} && y < 5 && w < 64 && x < 64 && z < 64
    requires (state == 6 ==> w >= 16) && (state == 8 ==> w < 16) && c == ((y * 64 + w) * 64 + x) * 64 + z
    ensures var s := [0x80 + w, 0x80 + x, 0x80 + z];
      Run(Decoder(state, y), s) == Decoder(0, c) && Points(Decoder(state, y), s) == [c]
  {
    var n, two := Decoder(3, y * 64 + w), [0x80 + x, 0x80 + z];
    assert Step(Decoder(state, y), 0x80 + w) == n by { SecondOfFour(state, y, w); }
    assert Run(n, two) == Decoder(0, c) && Points(n, two) == [c] by { LastTwo(y * 64 + w, x, z); }
    OneAndTwo(0x80 + w, 0x80 + x, 0x80 + z);
    GoOn(Decoder(state, y), 0x80 + w, n, two, c);
  }

  lemma FourRun(y: nat, w: nat, x: nat, z: nat, codep: nat, c: nat)
    requires y < 5 && w < 64 && x < 64 && z < 64 && (y == 0 ==> w >= 16) && (y == 4 ==> w < 16)
    requires c == ((y * 64 + w) * 64 + x) * 64 + z
    ensures var s := [0xF0 + y, 0x80 + w, 0x80 + x, 0x80 + z];
      Run(Decoder(0, codep), s) == Decoder(0, c) && Points(Decoder(0, codep), s) == [c]
  {
    FirstOfFour(codep, y);
    var n := Decoder(if y == 0 then 6 else if y == 4 then 8 else 7, y);
    var three := [0x80 + w, 0x80 + x, 0x80 + z];
    LastThree(n.state, y, w, x, z, c);
    GoOn(Decoder(0, codep), 0xF0 + y, n, three, c);
    assert [0xF0 + y] + three == [0xF0 + y, 0x80 + w, 0x80 + x, 0x80 + z];
  }

  lemma FourBytes(c: nat, codep: nat)
    requires 0x1_0000 <= c <= 0x10FFFF
    ensures Run(Decoder(0, codep), EncodeScalar(c)) == Decoder(0, c)
    ensures Points(Decoder(0, codep), EncodeScalar(c)) == [c]
  {
    var y, w, x, z := c / 0x4_0000, c / 4096 % 64, c / 64 % 64, c % 64;
    FourDigits(c);
    FourRun(y, w, x, z, codep, c);
  }

  lemma FourDigits(c: nat)
    requires 0x1_0000 <= c <= 0x10FFFF
    ensures var y, w, x, z := c / 0x4_0000, c / 4096 % 64, c / 64 % 64, c % 64;
      y < 5 && (y == 0 ==> w >= 16) && (y == 4 ==> w < 16) && c == ((y * 64 + w) * 64 + x) * 64 + z
  {
    assert c / 0x4_0000 == c / 4096 / 64;
    assert c / 4096 == c / 64 / 64;
  }

  /** Decoding one encoded character from the accepting state: the register ends as its scalar value. */
  lemma DecodeScalar(c: nat, codep: nat)
    requires Scalar(c)
    ensures Run(Decoder(0, codep), EncodeScalar(c)) == Decoder(0, c)
    ensures Points(Decoder(0, codep), EncodeScalar(c)) == [c]
  {
    if c < 0x80 {
      Finish(Decoder(0, codep), c, c);
    } else if c < 0x800 {
      TwoBytes(c, codep);
    } else if c < 0x1_0000 {
      ThreeBytes(c, codep);
    } else {
      FourBytes(c, codep);
    }
  }

  /** Whenever the automaton returns to the accepting state the register holds the scalar value just read. */
  lemma {:induction false} DecodeAll(cs: seq<nat>, codep: nat)
    requires Scalars(cs)
    ensures Run(Decoder(0, codep), EncodeAll(cs)).state == ACCEPT
    ensures Points(Decoder(0, codep), EncodeAll(cs)) == cs
    decreases |cs|
  {
    if cs != [] {
      DecodeScalar(cs[0], codep);
      DecodeAll(cs[1..], cs[0]);
      RunConcat(Decoder(0, codep), EncodeScalar(cs[0]), EncodeAll(cs[1..]));
      PointsConcat(Decoder(0, codep), EncodeScalar(cs[0]), EncodeAll(cs[1..]));
      assert cs == [cs[0]] + cs[1..];
    }
  }

  lemma PairScalar(a: byte, b: byte) returns (c: nat)
    requires Pair(a, b)
    ensures Scalar(c) && EncodeScalar(c) == [a, b]
  {
    var y: nat, x: nat := a - 0xC0, b - 0x80;
    c := y * 64 + x;
  }

  lemma Digits(y: nat, x: nat, z: nat)
    requires x < 64 && z < 64
    ensures var c := (y * 64 + x) * 64 + z; c / 4096 == y && c / 64 == y * 64 + x && c / 64 % 64 == x && c % 64 == z
  {
    var c := (y * 64 + x) * 64 + z;
    assert c / 64 == y * 64 + x;
  }

  lemma TripleScalar(a: byte, b: byte, d: byte) returns (c: nat)
    requires Triple(a, b, d)
    ensures Scalar(c) && EncodeScalar(c) == [a, b, d]
  {
    var y: nat, x: nat, z: nat := a - 0xE0, b - 0x80, d - 0x80;
    c := (y * 64 + x) * 64 + z;
    Digits(y, x, z);
  }

  lemma QuadScalar(a: byte, b: byte, d: byte, e: byte) returns (c: nat)
    requires Quad(a, b, d, e)
    ensures Scalar(c) && EncodeScalar(c) == [a, b, d, e]
  {
    var y: nat, w: nat, x: nat, z: nat := a - 0xF0, b - 0x80, d - 0x80, e - 0x80;
    var high := y * 64 + w;
    c := (high * 64 + x) * 64 + z;
    Digits(high, x, z);
    assert c / 4096 == high && high / 64 == y && high % 64 == w;
    assert c / 0x4_0000 == y;
  }

  /** The scalar value of the first character, and its length. */
  lemma FirstScalar(s: seq<byte>) returns (c: nat, n: nat)
    requires s != [] && WellFormed(s)
    ensures Scalar(c) && 0 < n <= |s| && EncodeScalar(c) == s[..n] && WellFormed(s[n..])
  {
    if s[0] <= 0x7F {
      c, n := s[0], 1;
    } else if |s| >= 2 && Pair(s[0], s[1]) && WellFormed(s[2..]) {
      c := PairScalar(s[0], s[1]);
      n := 2;
    } else if |s| >= 3 && Triple(s[0], s[1], s[2]) && WellFormed(s[3..]) {
      c := TripleScalar(s[0], s[1], s[2]);
      n := 3;
    } else {
      c := QuadScalar(s[0], s[1], s[2], s[3]);
      n := 4;
    }
  }

  lemma {:induction false} Meaning(s: seq<byte>) returns (cs: seq<nat>)
    requires WellFormed(s)
    ensures Scalars(cs) && EncodeAll(cs) == s
    decreases |s|
  {
    cs := [];
    if s != [] {
      var c, n := FirstScalar(s);
      var rest := Meaning(s[n..]);
      cs := [c] + rest;
      assert cs[1..] == rest;
      assert s == s[..n] + s[n..];
    }
  }

  /** Accepted, well-formed by the grammar, and the encoding of some sequence of scalar values: all the same;
      and the scalar values are the ones the register went through. */
  lemma AcceptedExactly(s: seq<byte>)
    ensures Run(Decoder(0, 0), s).state == ACCEPT <==> WellFormed(s)
    ensures WellFormed(s) <==> exists cs :: Scalars(cs) && EncodeAll(cs) == s
    ensures WellFormed(s) ==> Scalars(Points(Decoder(0, 0), s)) && EncodeAll(Points(Decoder(0, 0), s)) == s
  {
    AcceptsRest(Decoder(0, 0), s);
    if WellFormed(s) {
      var cs := Meaning(s);
      DecodeAll(cs, 0);
    }
    if cs :| Scalars(cs) && EncodeAll(cs) == s {
      DecodeAll(cs, 0);
    }
  }

  // ---------- the streaming validator ----------

  class Validator {
    var m_state: nat
    var m_codepoint: nat

    function Now(): Decoder
      reads this
    {
      Decoder(m_state, m_codepoint)
    }

    constructor ()
      ensures Now() == Decoder(0, 0)
    {
      m_state, m_codepoint := ACCEPT, 0;
    }

    method Consume(b: byte) returns (ok: bool)
      requires m_state < 9
      modifies this
      ensures Now() == Step(old(Now()), b) && ok == (m_state != REJECT)
    {
      m_codepoint := NextPoint(m_state, m_codepoint, b);
      m_state := Next(m_state, b);
      ok := m_state != REJECT;
    }

    /** Stops at the first error; either way the state is the one after the whole chunk. */
    method Decode(chunk: seq<byte>) returns (ok: bool)
      requires m_state < 9
      modifies this
      ensures m_state == Run(old(Now()), chunk).state && ok == (m_state != REJECT || chunk == [])
      ensures m_state != REJECT ==> Now() == Run(old(Now()), chunk)
    {
      ghost var start := Now();
      assert chunk[0..] == chunk;
      for i := 0 to |chunk|
        invariant m_state < 9 && (i > 0 ==> m_state != REJECT)
        invariant Run(start, chunk) == Run(Now(), chunk[i..])
      {
        assert chunk[i..][0] == chunk[i] && chunk[i..][1..] == chunk[i + 1..];
        var good := Consume(chunk[i]);
        if !good {
          RejectAbsorbs(Now(), chunk[i + 1..]);
          return false;
        }
      }
      ok := true;
    }

    method Complete() returns (done: bool)
      ensures done == (m_state == ACCEPT)
    {
      done := m_state == ACCEPT;
    }

    method Reset()
      modifies this
      ensures Now() == Decoder(0, 0)
    {
      m_state, m_codepoint := ACCEPT, 0;
    }
  }

  /** A whole string is valid exactly when it is well-formed. */
  method Validate(s: seq<byte>) returns (valid: bool)
    ensures valid <==> WellFormed(s)
  {
    AcceptsRest(Decoder(0, 0), s);
    var v := new Validator();
    var ok := v.Decode(s);
    if !ok {
      return false;
    }
    valid := v.Complete();
  }

  ghost function Joined(chunks: seq<seq<byte>>): seq<byte> {
    if chunks == [] then [] else Joined(chunks[..|chunks| - 1]) + chunks[|chunks| - 1]
  }

  /** A message that arrives in chunks of any sizes, as hybi13 feeds it to the validator. */
  method ValidateChunks(chunks: seq<seq<byte>>) returns (valid: bool)
    ensures valid <==> WellFormed(Joined(chunks))
  {
    AcceptsRest(Decoder(0, 0), Joined(chunks));
    var v := new Validator();
    assert chunks[..|chunks|] == chunks;
    for i := 0 to |chunks|
      invariant v.m_state < 9 && v.m_state == Run(Decoder(0, 0), Joined(chunks[..i])).state
      invariant v.m_state != REJECT && v.Now() == Run(Decoder(0, 0), Joined(chunks[..i]))
    {
      assert chunks[..i + 1][..i] == chunks[..i];
      RunConcat(Decoder(0, 0), Joined(chunks[..i]), chunks[i]);
      var ok := v.Decode(chunks[i]);
      if !ok {
        JoinedRejects(chunks, i + 1);
        return false;
      }
    }
    valid := v.Complete();
  }

  lemma JoinedMore(chunks: seq<seq<byte>>, k: nat)
    requires k < |chunks|
    ensures Joined(chunks[..k + 1]) == Joined(chunks[..k]) + chunks[k]
  {
    assert chunks[..k + 1][..k] == chunks[..k];
  }

  lemma RejectStays(d: Decoder, s: seq<byte>, more: seq<byte>)
    requires d.state < 9 && Run(d, s).state == REJECT
    ensures Run(d, s + more).state == REJECT
  {
    RunConcat(d, s, more);
    RejectAbsorbs(Run(d, s), more);
  }

  lemma {:induction false} JoinedRejects(chunks: seq<seq<byte>>, k: nat)
    requires k <= |chunks| && Run(Decoder(0, 0), Joined(chunks[..k])).state == REJECT
    ensures Run(Decoder(0, 0), Joined(chunks)).state == REJECT
    decreases |chunks| - k
  {
    if k == |chunks| {
      assert chunks[..k] == chunks;
    } else {
      RejectStays(Decoder(0, 0), Joined(chunks[..k]), chunks[k]);
      JoinedMore(chunks, k);
      JoinedRejects(chunks, k + 1);
    }
  }
}
